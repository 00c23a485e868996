/** Installed plugins: package directories, recorded trust anchors, active pointers and disabled
    ids, under installs, activations, removals, loads and anything else that befalls the files
    of the packages. */
module PluginStore {
  import opened Wrappers
  import opened Integrity

  datatype Record = Record(versions: set<string>, hashes: map<string, string>, migrated: set<string>)

  datatype Sys = Sys(
    disk: map<(string, string), Package>,
    installed: map<string, Record>,
    active: map<string, string>,
    disabled: set<string>)

  /** What a written active index reads back as. */
  function Pointers(active: map<string, string>): map<string, string>
  {
    map id | id in active && id != "plugin_api" && active[id] != "" :: active[id]
  }

  function PackageAt(s: Sys, id: string, v: string): Package
  {
    if (id, v) in s.disk then s.disk[(id, v)] else NoPackage
  }

  /** The recorded manifest hash of a version, if there is one. */
  function Anchor(s: Sys, id: string, v: string): Option<string>
  {
    if id in s.installed && v in s.installed[id].hashes && s.installed[id].hashes[v] != ""
    then Some(s.installed[id].hashes[v]) else None
  }

  predicate SafeName(env: Env, id: string, v: string)
  {
    env.validId(id) && '/' !in v && '\\' !in v && !exists k :: 0 <= k < |v| - 1 && v[k] == '.' && v[k + 1] == '.'
  }

  /** The manifest names this plugin and version and suits this application. */
  predicate ManifestFits(env: Env, p: Package, id: string, v: string)
  {
    && ManifestBytes(p).Some?
    && var m := env.parse(ManifestBytes(p).value);
    && m.Some? && m.value.id == id && m.value.version == v && env.compatible(m.value)
  }

  /** The hash that the files of a version are checked against: the recorded one, or that of the
      manifest as found if nothing is recorded and the files match it. */
  ghost function Trusted(env: Env, s: Sys, id: string, v: string): Option<string>
  {
    var p := PackageAt(s, id, v);
    if Anchor(s, id, v).Some? then Anchor(s, id, v)
    else if ManifestBytes(p).None? then None
    else
      var found := env.sha(ManifestBytes(p).value);
      if found != "" && Verified(env, p, Some(found)) then Some(found) else None
  }

  /** The loader returns plugin `id`, at its active version. */
  ghost predicate Loads(env: Env, s: Sys, id: string)
  {
    && id in s.active && id !in s.disabled
    && var v := s.active[id];
    && var p := PackageAt(s, id, v);
    && SafeName(env, id, v)
    && ManifestFits(env, p, id, v)
    && Trusted(env, s, id, v).Some?
    && Verified(env, p, Trusted(env, s, id, v))
    && env.entrypointsOk(Files(p))
  }

  /** What the loader returns, in terms of what is on disk and in the indexes. */
  lemma LoadsExactly(env: Env, s: Sys, id: string)
    ensures Loads(env, s, id) <==>
      && id in s.active && id !in s.disabled && env.validId(id)
      && var v := s.active[id];
      && '/' !in v && '\\' !in v && (forall k :: 0 <= k < |v| - 1 ==> !(v[k] == '.' && v[k + 1] == '.'))
      && (id, v) in s.disk
      && var p := s.disk[(id, v)];
      && MANIFEST in p.nodes && (p.nodes[MANIFEST].Regular? || p.nodes[MANIFEST].target.Some?)
      && var bytes := if p.nodes[MANIFEST].Regular? then p.nodes[MANIFEST].data else p.nodes[MANIFEST].target.value;
      && env.parse(bytes).Some?
      && var m := env.parse(bytes).value;
      && m.id == id && m.version == v && env.compatible(m)
      && var recorded := if id in s.installed && v in s.installed[id].hashes then s.installed[id].hashes[v] else "";
      && var trusted := if recorded != "" then recorded else env.sha(bytes);
      && trusted != "" && Verified(env, p, Some(trusted)) && env.entrypointsOk(Files(p))
  {
    if id in s.active {
      var v := s.active[id];
      var p := PackageAt(s, id, v);
      SafeExactly(env, id, v);
      assert ManifestBytes(p).Some? <==> MANIFEST in p.nodes && (p.nodes[MANIFEST].Regular? || p.nodes[MANIFEST].target.Some?);
      assert ManifestBytes(p).Some? ==> (id, v) in s.disk;
    }
  }

  /** An enabled plugin whose active directory, safely named, holds the manifest of that very plugin
      and version, for this application. */
  predicate IsItself(env: Env, s: Sys, id: string)
  {
    && id in s.active && id !in s.disabled && (id, s.active[id]) in s.disk
    && '/' !in s.active[id] && '\\' !in s.active[id]
    && (forall k :: 0 <= k < |s.active[id]| - 1 ==> !(s.active[id][k] == '.' && s.active[id][k + 1] == '.'))
    && "manifest.json" in s.disk[(id, s.active[id])].nodes
    && var node := s.disk[(id, s.active[id])].nodes["manifest.json"];
    && (node.Regular? || node.target.Some?)
    && var m := env.parse(if node.Regular? then node.data else node.target.value);
    && m.Some? && m.value.id == id && m.value.version == s.active[id] && env.compatible(m.value)
  }

  lemma LoadedAreThemselves(env: Env, s: Sys)
    ensures forall id :: Loads(env, s, id) ==> IsItself(env, s, id)
  {
    forall id | Loads(env, s, id) ensures IsItself(env, s, id) {
      LoadsExactly(env, s, id);
    }
  }

  lemma SafeExactly(env: Env, id: string, v: string)
    ensures SafeName(env, id, v) <==>
      && env.validId(id) && '/' !in v && '\\' !in v
      && (forall k :: 0 <= k < |v| - 1 ==> !(v[k] == '.' && v[k + 1] == '.'))
  {
  }

  // ----- Steps ---------------------------------------------------------------------------------

  /** What loading may change: versions without an anchor may get one that their files match. */
  ghost predicate Migrated(env: Env, s: Sys, s': Sys)
  {
    && s'.disk == s.disk && s'.active == s.active && s'.disabled == s.disabled
    && s'.installed.Keys == s.installed.Keys
    && (forall id :: id in s.installed ==> s'.installed[id].versions == s.installed[id].versions)
    && (forall id, v :: Anchor(s, id, v).Some? ==> Anchor(s', id, v) == Anchor(s, id, v))
    && (forall id, v :: Anchor(s', id, v) != Anchor(s, id, v) ==>
          Anchor(s', id, v).Some? && Verified(env, PackageAt(s, id, v), Anchor(s', id, v)))
  }

  /** `Cut` is an operation that a crash or a failing write of an index ended on the way; by then
      the pointer may have been set. A removal may have been cut short, too: it counts as
      `unpointed` once the pointer is gone. */
  datatype Outcome = Success | Failure | Cut(pointed: bool)

  datatype Event =
    | Install(id: string, version: string, outcome: Outcome)
    | Activate(id: string, version: string, outcome: Outcome)
    | Remove(id: string, unpointed: bool)
    | SetDisabled(id: string, disabled: bool)
    | Load
    | Tamper

  /** The pointers that an install or activation leaves. */
  function PointersLeft(active: map<string, string>, id: string, v: string, outcome: Outcome): map<string, string>
  {
    if outcome == Success || outcome == Cut(true) then Pointers(active[id := v]) else active
  }

  /** `s'` has the anchors of `s`, except perhaps for version `v` of `id`. */
  ghost predicate OtherAnchorsKept(s: Sys, s': Sys, id: string, v: string)
  {
    forall i, w :: (i, w) != (id, v) && Anchor(s, i, w).Some? ==> Anchor(s', i, w) == Anchor(s, i, w)
  }

  ghost predicate Step(env: Env, s: Sys, s': Sys, e: Event)
  {
    match e
    case Install(id, v, outcome) =>
      && s'.disabled == s.disabled
      // Published directories are never touched; one may be added.
      && (forall k :: k in s.disk ==> k in s'.disk && s'.disk[k] == s.disk[k])
      && (forall k :: k in s'.disk && k != (id, v) ==> k in s.disk)
      && OtherAnchorsKept(s, s', id, v)
      && s'.active == PointersLeft(s.active, id, v, outcome)
      && (outcome.Success? ==> Loads(env, s', id) && s'.active[id] == v && Anchor(s', id, v).Some?)
    case Activate(id, v, outcome) =>
      && Migrated(env, s.(active := s'.active), s')
      && s'.active == PointersLeft(s.active, id, v, outcome)
      && (outcome.Success? ==> Loads(env, s', id) && s'.active[id] == v)
    case Remove(id, unpointed) =>
      && (s'.installed == s.installed - {id} || (!unpointed && s'.installed == s.installed))
      && s'.active == (if unpointed then s.active - {id} else s.active) && s'.disabled == s.disabled
      && (forall k :: k in s'.disk ==> k in s.disk && s'.disk[k] == s.disk[k])
      && (forall k :: k in s.disk && k.0 != id ==> k in s'.disk)
    case SetDisabled(id, disabled) =>
      s' == s.(disabled := if disabled then s.disabled + {id} else s.disabled - {id})
    case Load =>
      Migrated(env, s, s')
    case Tamper =>
      s' == s.(disk := s'.disk)
  }

  ghost predicate IsHistory(env: Env, run: seq<Sys>, events: seq<Event>)
  {
    && |run| == |events| + 1
    && forall k {:trigger Linked(env, run, events, k)} :: 0 <= k < |events| ==> Linked(env, run, events, k)
  }

  ghost predicate Linked(env: Env, run: seq<Sys>, events: seq<Event>, k: nat)
    requires k < |events| && |run| == |events| + 1
  {
    Step(env, run[k], run[k + 1], events[k])
  }

  predicate Concerns(e: Event, id: string, v: string)
  {
    (e.Install? && e.id == id && e.version == v) || (e.Remove? && e.id == id)
  }

  lemma StepKeepsAnchor(env: Env, s: Sys, s': Sys, e: Event, id: string, v: string)
    requires Step(env, s, s', e) && !Concerns(e, id, v) && Anchor(s, id, v).Some?
    ensures Anchor(s', id, v) == Anchor(s, id, v)
  {
    if e.Activate? {
      assert Anchor(s.(active := s'.active), id, v) == Anchor(s, id, v);
    }
  }

  /** A recorded anchor outlives everything but an install of that version or its removal. */
  lemma {:induction false} AnchorPersists(env: Env, run: seq<Sys>, events: seq<Event>, i: nat, k: nat, id: string, v: string)
    requires IsHistory(env, run, events) && i <= k <= |events|
    requires Anchor(run[i], id, v).Some?
    requires forall j :: i <= j < k ==> !Concerns(events[j], id, v)
    ensures Anchor(run[k], id, v) == Anchor(run[i], id, v)
  {
    if i < k {
      AnchorPersists(env, run, events, i, k - 1, id, v);
      assert Linked(env, run, events, k - 1);
      StepKeepsAnchor(env, run[k - 1], run[k], events[k - 1], id, v);
    }
  }

  /** After a successful install, and until the next install or removal of that version, the
      loader returns that version only with the installed manifest and exactly the installed bytes
      in every declared file, whatever happens to the files on disk (unless SHA-256 collides). Other
      files can be there only below linked directories. */
  lemma LoadsOnlyInstalledBytes(env: Env, run: seq<Sys>, events: seq<Event>, i: nat, k: nat, id: string, v: string)
    requires IsHistory(env, run, events) && i < k <= |events|
    requires events[i] == Install(id, v, Success)
    requires forall j :: i < j < k ==> !Concerns(events[j], id, v)
    requires Loads(env, run[k], id) && run[k].active[id] == v
    ensures SameButStrays(env, PackageAt(run[k], id, v), PackageAt(run[i + 1], id, v)) || Collision(env.sha)
  {
    assert Linked(env, run, events, i);
    var hash := Anchor(run[i + 1], id, v).value;
    AnchorPersists(env, run, events, i + 1, k, id, v);
    SameAnchorSameFiles(env, PackageAt(run[k], id, v), PackageAt(run[i + 1], id, v), hash);
  }

  /** The pointer of `id` that the operations among the first `k` events leave which succeeded,
      or were cut short with the pointer set. */
  ghost function PointerAfter(start: map<string, string>, events: seq<Event>, k: nat, id: string): Option<string>
    requires k <= |events|
  {
    if k == 0 then (if id in start then Some(start[id]) else None)
    else
      var e := events[k - 1];
      if (e.Install? || e.Activate?) && (e.outcome == Success || e.outcome == Cut(true)) && e.id == id then
        (if id == "plugin_api" || e.version == "" then None else Some(e.version))
      else if e.Remove? && e.unpointed && e.id == id then None
      else PointerAfter(start, events, k - 1, id)
  }

  lemma StepKeepsPointers(env: Env, s: Sys, s': Sys, e: Event)
    requires Step(env, s, s', e) && Pointers(s.active) == s.active
    ensures Pointers(s'.active) == s'.active
    ensures (e.Install? || e.Activate?) && e.outcome.Success? ==>
              e.id !in s.disabled && e.id in s'.active && s'.active == s.active[e.id := e.version]
    ensures (e.Install? || e.Activate?) && (e.outcome.Failure? || e.outcome == Cut(false)) ==> s'.active == s.active
  {
  }

  /** Over any history the active index is what the successful installs and activations made it,
      and those cut short after setting the pointer: failing ones, loads, disabling and tampering
      leave no trace in it. And whenever an install or activation succeeds, the loader returns
      that version and the plugin is not disabled. */
  lemma {:induction false} PointersFollowSuccesses(env: Env, run: seq<Sys>, events: seq<Event>, k: nat, id: string)
    requires IsHistory(env, run, events) && k <= |events|
    requires Pointers(run[0].active) == run[0].active
    ensures Pointers(run[k].active) == run[k].active
    ensures (if id in run[k].active then Some(run[k].active[id]) else None)
         == PointerAfter(run[0].active, events, k, id)
    ensures k > 0 && (events[k - 1].Install? || events[k - 1].Activate?) && events[k - 1].outcome.Success? ==>
              Loads(env, run[k], events[k - 1].id) && events[k - 1].id !in run[k - 1].disabled
  {
    if k > 0 {
      PointersFollowSuccesses(env, run, events, k - 1, id);
      assert Linked(env, run, events, k - 1);
      StepKeepsPointers(env, run[k - 1], run[k], events[k - 1]);
    }
  }

  /** Disabling a plugin keeps it from loading and no other one; enabling it again undoes just
      that. */
  lemma DisablingConcernsOne(env: Env, s: Sys, id: string, other: string)
    ensures var off, on := s.(disabled := s.disabled + {id}), s.(disabled := s.disabled - {id});
            && !Loads(env, off, id)
            && (other != id ==> Loads(env, off, other) == Loads(env, s, other) == Loads(env, on, other))
            && off.(disabled := off.disabled - {id}) == on
            && (id !in s.disabled ==> on == s)
  {
    var off, on := s.(disabled := s.disabled + {id}), s.(disabled := s.disabled - {id});
    if other in s.active && other != id {
      SameButDisabled(env, s, off, other);
      SameButDisabled(env, s, on, other);
    }
  }

  lemma SameButDisabled(env: Env, s: Sys, t: Sys, id: string)
    requires t == s.(disabled := t.disabled) && (id in s.disabled <==> id in t.disabled)
    ensures Loads(env, s, id) == Loads(env, t, id)
  {
    if id in s.active {
      var v := s.active[id];
      assert Anchor(s, id, v) == Anchor(t, id, v) && PackageAt(s, id, v) == PackageAt(t, id, v);
    }
  }

  // ----- The operations ------------------------------------------------------------------------

  lemma MigrationKeepsTrust(env: Env, s: Sys, s': Sys, id: string, v: string)
    requires Migrated(env, s, s')
    ensures Trusted(env, s', id, v) == Trusted(env, s, id, v)
  {
  }

  lemma MigrationKeepsLoading(env: Env, s: Sys, s': Sys, id: string)
    requires Migrated(env, s, s')
    ensures Loads(env, s', id) == Loads(env, s, id)
  {
    if id in s.active {
      MigrationKeepsTrust(env, s, s', id, s.active[id]);
    }
  }

  lemma MigratedTwice(env: Env, s: Sys, s1: Sys, s2: Sys)
    requires Migrated(env, s, s1) && Migrated(env, s1, s2)
    ensures Migrated(env, s, s2)
  {
  }

  lemma MigratedIgnoresPointers(env: Env, s: Sys, s': Sys, active: map<string, string>)
    requires Migrated(env, s, s')
    ensures Migrated(env, s.(active := active), s'.(active := active))
  {
    var t, t' := s.(active := active), s'.(active := active);
    forall id, v
      ensures Anchor(t, id, v) == Anchor(s, id, v) && Anchor(t', id, v) == Anchor(s', id, v)
      ensures PackageAt(t, id, v) == PackageAt(s, id, v)
    {
    }
  }

  /** Setting a pointer to `v`, loading (`loaded` is the state then), and keeping the pointer only
      if the plugin is returned. */
  lemma PointAndCheck(env: Env, s: Sys, loaded: Sys, id: string, v: string)
    requires Pointers(s.active) == s.active
    requires Migrated(env, s.(active := Pointers(s.active[id := v])), loaded)
    ensures var ok := Loads(env, loaded, id) && loaded.active[id] == v;
            && Step(env, s, if ok then loaded else loaded.(active := s.active), Activate(id, v, if ok then Success else Failure))
            && Step(env, s, loaded, Activate(id, v, Cut(true)))
            && Step(env, s, loaded.(active := s.active), Activate(id, v, Cut(false)))
            && (ok <==> id != "plugin_api" && v != "" && Loads(env, s.(active := s.active[id := v]), id))
  {
    var pointed := s.(active := Pointers(s.active[id := v]));
    MigratedIgnoresPointers(env, pointed, loaded, s.active);
    assert pointed.(active := s.active) == s;
    MigrationKeepsLoading(env, pointed, loaded, id);
    if id != "plugin_api" && v != "" {
      LoadingLooksAtOnePointer(env, pointed, s.(active := s.active[id := v]), id);
    }
  }

  lemma LoadingLooksAtOnePointer(env: Env, s: Sys, t: Sys, id: string)
    requires t == s.(active := t.active)
    requires id in s.active && id in t.active && s.active[id] == t.active[id]
    ensures Loads(env, s, id) == Loads(env, t, id)
  {
    var v := s.active[id];
    assert Anchor(s, id, v) == Anchor(t, id, v) && PackageAt(s, id, v) == PackageAt(t, id, v);
  }

  /** What an install has changed when it has put its directory in place and recorded the version,
      whichever pointers there are in the end. */
  ghost predicate Recorded(s: Sys, recorded: Sys, id: string, v: string, sha: string)
  {
    && recorded.disabled == s.disabled
    && (forall k :: k in s.disk ==> k in recorded.disk && recorded.disk[k] == s.disk[k])
    && (forall k :: k in recorded.disk && k != (id, v) ==> k in s.disk)
    && Anchor(recorded, id, v) == Some(sha) && OtherAnchorsKept(s, recorded, id, v)
  }

  lemma StillRecorded(env: Env, s: Sys, recorded: Sys, loaded: Sys, active: map<string, string>, id: string, v: string, sha: string)
    requires Recorded(s, recorded, id, v, sha) && Migrated(env, recorded, loaded)
    ensures Recorded(s, loaded, id, v, sha) && Recorded(s, loaded.(active := active), id, v, sha)
  {
    var t := loaded.(active := active);
    forall i, w ensures Anchor(t, i, w) == Anchor(loaded, i, w) {
    }
  }

  /** The same for an install that has put its directory in place and recorded the version. */
  lemma RecordAndCheck(env: Env, s: Sys, recorded: Sys, loaded: Sys, id: string, v: string, sha: string)
    requires Pointers(s.active) == s.active
    requires Recorded(s, recorded, id, v, sha) && recorded.active == Pointers(s.active[id := v])
    requires Migrated(env, recorded, loaded)
    ensures var ok := Loads(env, loaded, id) && loaded.active[id] == v;
            && Step(env, s, if ok then loaded else loaded.(active := s.active), Install(id, v, if ok then Success else Failure))
            && Step(env, s, loaded, Install(id, v, Cut(true)))
            && Step(env, s, loaded.(active := s.active), Install(id, v, Cut(false)))
            && Anchor(loaded, id, v) == Some(sha)
  {
    StillRecorded(env, s, recorded, loaded, s.active, id, v, sha);
    InstallEnds(env, s, loaded, id, v, sha, Cut(true));
    InstallEnds(env, s, loaded.(active := s.active), id, v, sha, Cut(false));
    if Loads(env, loaded, id) && loaded.active[id] == v {
      InstallEnds(env, s, loaded, id, v, sha, Success);
    } else {
      InstallEnds(env, s, loaded.(active := s.active), id, v, sha, Failure);
    }
  }

  lemma InstallEnds(env: Env, s: Sys, t: Sys, id: string, v: string, sha: string, outcome: Outcome)
    requires Recorded(s, t, id, v, sha) && t.active == PointersLeft(s.active, id, v, outcome)
    requires outcome.Success? ==> Loads(env, t, id) && t.active[id] == v
    ensures Step(env, s, t, Install(id, v, outcome))
  {
  }

  lemma AnchorsIgnoreDisk(s: Sys, disk: map<(string, string), Package>, id: string, v: string)
    ensures OtherAnchorsKept(s, s.(disk := disk), id, v)
  {
    forall i, w ensures Anchor(s, i, w) == Anchor(s.(disk := disk), i, w) {
    }
  }

  lemma AnchorsStay(s: Sys, t: Sys, u: Sys, id: string, v: string)
    requires OtherAnchorsKept(s, t, id, v) && OtherAnchorsKept(t, u, id, v)
    ensures OtherAnchorsKept(s, u, id, v)
  {
  }

  /** A staged package: the manifest, then each declared file as it was fetched. */
  function Staged(payload: Bytes, files: seq<FileEntry>, fetched: map<string, Bytes>): map<string, Node>
    requires forall k :: 0 <= k < |files| ==> files[k].path in fetched
  {
    if files == [] then map[MANIFEST := Regular(payload)]
    else
      var last := files[|files| - 1].path;
      Staged(payload, files[..|files| - 1], fetched)[last := Regular(fetched[last])]
  }

  function StagedPackage(payload: Bytes, m: Manifest, fetched: map<string, Bytes>): Package
    requires forall k :: 0 <= k < |m.files| ==> m.files[k].path in fetched
  {
    Package(false, Staged(payload, m.files, fetched), {})
  }

  lemma {:induction false} StagedHolds(payload: Bytes, files: seq<FileEntry>, fetched: map<string, Bytes>, path: string)
    requires forall k :: 0 <= k < |files| ==> files[k].path in fetched
    ensures var declared := exists k :: 0 <= k < |files| && files[k].path == path;
            var nodes := Staged(payload, files, fetched);
            && (path in nodes <==> declared || path == MANIFEST)
            && (declared ==> nodes[path] == Regular(fetched[path]))
            && (path == MANIFEST && !declared ==> nodes[path] == Regular(payload))
  {
    if files != [] {
      var init := files[..|files| - 1];
      StagedHolds(payload, init, fetched, path);
      assert forall k :: 0 <= k < |init| ==> init[k] == files[k];
      if files[|files| - 1].path != path && exists k :: 0 <= k < |files| && files[k].path == path {
        var k :| 0 <= k < |files| && files[k].path == path;
        assert init[k].path == path;
      }
    }
  }

  /** A directory as it may be published: the manifest, and every declared file with its size and
      hash; no links, and nothing else. */
  predicate PublishedAs(env: Env, p: Package, payload: Bytes, m: Manifest)
  {
    && !p.isLink && p.linkedDirs == {} && MANIFEST in p.nodes
    && (forall path :: path in p.nodes ==> path == MANIFEST || exists k :: 0 <= k < |m.files| && m.files[k].path == path)
    && ((forall k :: 0 <= k < |m.files| ==> m.files[k].path != MANIFEST) ==> p.nodes[MANIFEST] == Regular(payload))
    && (forall k :: 0 <= k < |m.files| ==>
          && m.files[k].path in p.nodes && p.nodes[m.files[k].path].Regular?
          && |p.nodes[m.files[k].path].data| == m.files[k].size
          && env.sha(p.nodes[m.files[k].path].data) == m.files[k].sha256)
  }

  lemma FetchedAreDeclared(env: Env, m: Manifest, payload: Bytes, fetched: map<string, Bytes>)
    requires FetchedOk(env, m, fetched)
    ensures PublishedAs(env, StagedPackage(payload, m, fetched), payload, m)
  {
    var nodes := Staged(payload, m.files, fetched);
    forall path
      ensures path in nodes ==> path == MANIFEST || exists k :: 0 <= k < |m.files| && m.files[k].path == path
    {
      StagedHolds(payload, m.files, fetched, path);
    }
    StagedHolds(payload, m.files, fetched, MANIFEST);
    forall k | 0 <= k < |m.files|
      ensures m.files[k].path in nodes && nodes[m.files[k].path] == Regular(fetched[m.files[k].path])
    {
      StagedHolds(payload, m.files, fetched, m.files[k].path);
    }
  }

  predicate FetchedOk(env: Env, m: Manifest, fetched: map<string, Bytes>)
  {
    forall k :: 0 <= k < |m.files| ==>
      && m.files[k].path in fetched
      && |fetched[m.files[k].path]| == m.files[k].size
      && env.sha(fetched[m.files[k].path]) == m.files[k].sha256
  }

  /** An existing directory holds byte for byte what is being installed, as far as hashes and a
      scan that does not descend into linked directories tell. */
  predicate ExistingMatches(env: Env, p: Package, m: Manifest, expected: string)
  {
    && ManifestBytes(p).Some?
    && (expected != "" ==> env.sha(ManifestBytes(p).value) == expected)
    && (forall path :: path in Files(p) && !Hidden(p, path) ==> path == MANIFEST || Declares(m, path))
    && (forall k :: 0 <= k < |m.files| ==>
          && m.files[k].path in Files(p)
          && |Files(p)[m.files[k].path]| == m.files[k].size
          && env.sha(Files(p)[m.files[k].path]) == m.files[k].sha256)
  }

  /** A directory that holds what would be staged is reused: installing again is no conflict. */
  lemma SameIsReused(env: Env, m: Manifest, expected: string, payload: Bytes, fetched: map<string, Bytes>)
    requires env.sha(payload) == expected && FetchedOk(env, m, fetched)
    requires forall k :: 0 <= k < |m.files| ==> m.files[k].path != MANIFEST
    ensures ExistingMatches(env, StagedPackage(payload, m, fetched), m, expected)
  {
    FetchedAreDeclared(env, m, payload, fetched);
  }

  /** Exactly the staged files, and beside them only undeclared files below linked directories. */
  predicate HoldsStaged(p: Package, m: Manifest, payload: Bytes, fetched: map<string, Bytes>)
    requires forall k :: 0 <= k < |m.files| ==> m.files[k].path in fetched
  {
    var staged := Files(StagedPackage(payload, m, fetched));
    PinnedFiles(p, m) == staged && (Files(p) == staged <==> StrayFiles(p, m) == map[])
  }

  lemma MatchPins(env: Env, p: Package, m: Manifest, expected: string, payload: Bytes, fetched: map<string, Bytes>, path: string)
    requires expected != "" && env.sha(payload) == expected && !Collision(env.sha)
    requires ExistingMatches(env, p, m, expected) && FetchedOk(env, m, fetched)
    ensures var staged := Files(StagedPackage(payload, m, fetched));
            if path == MANIFEST || Declares(m, path) then path in Files(p) && path in staged && Files(p)[path] == staged[path]
            else path !in staged
  {
    StagedHolds(payload, m.files, fetched, path);
    if k :| 0 <= k < |m.files| && m.files[k].path == path {
      NoCollision(env.sha, Files(p)[path], fetched[path]);
    } else if path == MANIFEST {
      NoCollision(env.sha, ManifestBytes(p).value, payload);
    }
  }

  lemma MatchPinsAll(env: Env, p: Package, m: Manifest, expected: string, payload: Bytes, fetched: map<string, Bytes>)
    requires expected != "" && env.sha(payload) == expected && !Collision(env.sha)
    requires ExistingMatches(env, p, m, expected) && FetchedOk(env, m, fetched)
    ensures PinnedFiles(p, m) == Files(StagedPackage(payload, m, fetched))
  {
    var staged := Files(StagedPackage(payload, m, fetched));
    forall path
      ensures path in PinnedFiles(p, m) <==> path in staged
      ensures path in PinnedFiles(p, m) ==> PinnedFiles(p, m)[path] == staged[path]
    {
      MatchPins(env, p, m, expected, payload, fetched, path);
    }
  }

  /** What a directory that is reused holds, unless SHA-256 collides. */
  lemma MatchMeansSameFiles(env: Env, p: Package, m: Manifest, expected: string, payload: Bytes, fetched: map<string, Bytes>)
    requires expected != "" && env.sha(payload) == expected
    requires ExistingMatches(env, p, m, expected) && FetchedOk(env, m, fetched)
    ensures HoldsStaged(p, m, payload, fetched) || Collision(env.sha)
  {
    if !Collision(env.sha) {
      MatchPinsAll(env, p, m, expected, payload, fetched);
      assert Files(p) == PinnedFiles(p, m) + StrayFiles(p, m);
      SplitMaps(PinnedFiles(p, m), StrayFiles(p, m), map[]);
    }
  }

  /** The manifest is the registry's, names this version, suits the application, every file it
      declares arrived as declared, and the staged package can be installed. */
  predicate Arrived(env: Env, id: string, v: string, expected: string, payload: Bytes, fetched: map<string, Bytes>)
  {
    && env.sha(payload) == expected
    && var m := env.parse(payload);
    && m.Some? && m.value.id == id && m.value.version == v && env.compatible(m.value)
    && FetchedOk(env, m.value, fetched)
    && env.installable(m.value, Files(StagedPackage(payload, m.value, fetched)))
  }

  class Store {
    var disk: map<(string, string), Package>
    var installed: map<string, Record>
    var active: map<string, string>
    var disabled: set<string>
    ghost var failures: nat  // how many writes have failed

    ghost function Now(): Sys
      reads this`disk, this`installed, this`active, this`disabled
    {
      Sys(disk, installed, active, disabled)
    }

    ghost predicate Valid()
      reads this`active
    {
      Pointers(active) == active
    }

    constructor ()
      ensures Valid() && Now() == Sys(map[], map[], map[], {})
    {
      disk, installed, active, disabled := map[], map[], map[], {};
      failures := 0;
    }

    /** Whether the next write of an index, or publishing a directory, succeeds. An index may have
        been replaced and the write fail all the same, on setting the file's mode. */
    method Writes() returns (ok: bool, written: bool)
      modifies this`failures
      ensures failures == old(failures) + (if ok then 0 else 1) && (ok ==> written)
    {
      ok, written := *, *;
      if ok {
        written := true;
      } else {
        failures := failures + 1;
      }
    }

    /** Records a verified hash as the trust anchor of a version, marked as migrated. */
    method MarkMigrated(id: string, v: string, sha: string)
      requires id in installed
      modifies this`installed
      ensures installed == old(installed)[id := Record(old(installed)[id].versions,
                old(installed)[id].hashes[v := sha], old(installed)[id].migrated + {v})]
    {
      var r := installed[id];
      installed := installed[id := r.(hashes := r.hashes[v := sha], migrated := r.migrated + {v})];
    }

    /** The trusted hash of a version. A version without one may be given the hash its files
        match now; writing that down may fail, and is then left to the next load. */
    method EnsureTrustedHash(env: Env, id: string, v: string) returns (hash: Option<string>)
      modifies this`installed
      ensures hash == Trusted(env, old(Now()), id, v)
      ensures Migrated(env, old(Now()), Now())
    {
      if id in installed && v in installed[id].hashes && installed[id].hashes[v] != "" {
        return Some(installed[id].hashes[v]);
      }
      var p := if (id, v) in disk then disk[(id, v)] else NoPackage;
      if ManifestBytes(p).None? {
        return None;
      }
      var found := env.sha(ManifestBytes(p).value);
      if found == "" {
        return None;
      }
      var errors := VerifyVersionDir(env, p, Some(found));
      if errors != [] {
        return None;
      }
      var writable := *;
      if id in installed && writable {
        MarkMigrated(id, v, found);
      }
      hash := Some(found);
    }

    /** Whether the loader accepts one active plugin. */
    method LoadOne(env: Env, id: string) returns (loaded: bool)
      requires id in active
      modifies this`installed
      ensures loaded == Loads(env, old(Now()), id)
      ensures Migrated(env, old(Now()), Now())
    {
      var v := active[id];
      if id in disabled || !SafeName(env, id, v) {
        return false;
      }
      var p := if (id, v) in disk then disk[(id, v)] else NoPackage;
      if !ManifestFits(env, p, id, v) {
        return false;
      }
      var trusted := EnsureTrustedHash(env, id, v);
      if trusted.None? {
        return false;
      }
      var errors := VerifyVersionDir(env, p, trusted);
      loaded := errors == [] && env.entrypointsOk(Files(p));
    }

    /** The plugins that load, each judged as if it were alone: a broken one never keeps another
        from loading. */
    method LoadInstalledPlugins(env: Env) returns (plugins: set<string>)
      modifies this`installed
      ensures plugins == set id | id in old(active) && Loads(env, old(Now()), id)
      ensures Migrated(env, old(Now()), Now())
      ensures forall id :: id in plugins ==> IsItself(env, Now(), id)
    {
      LoadedAreThemselves(env, Now());
      plugins := {};
      var todo := active.Keys;
      while todo != {}
        invariant todo <= active.Keys
        invariant Migrated(env, old(Now()), Now())
        invariant plugins == set id | id in active.Keys - todo && Loads(env, old(Now()), id)
        decreases todo
      {
        var id :| id in todo;
        todo := todo - {id};
        MigrationKeepsLoading(env, old(Now()), Now(), id);
        ghost var before := Now();
        var loaded := LoadOne(env, id);
        MigratedTwice(env, old(Now()), before, Now());
        if loaded {
          plugins := plugins + {id};
        }
      }
    }

    /** Writes the index with one pointer changed, if it can. */
    method SetPointer(id: string, v: Option<string>) returns (ok: bool, written: bool)
      requires Valid()
      modifies this`active, this`failures
      ensures Valid() && (ok <==> failures == old(failures)) && (ok ==> written)
      ensures active == if !written then old(active)
                        else Pointers(if v.Some? then old(active)[id := v.value] else old(active) - {id})
    {
      ok, written := Writes();
      if written {
        active := Pointers(if v.Some? then active[id := v.value] else active - {id});
      }
    }

    /** Keeps the pointer just set if the loader returns that version, else puts back `previous`. */
    method KeepOrRestore(env: Env, id: string, v: string, previous: Option<string>, ghost before: map<string, string>)
      returns (outcome: Outcome, ghost loaded: Sys)
      requires Valid() && Pointers(before) == before && active == Pointers(before[id := v])
      requires previous == if id in before then Some(before[id]) else None
      modifies this`active, this`installed, this`failures
      ensures Valid() && Migrated(env, old(Now()), loaded)
      ensures outcome.Success? <==> Loads(env, loaded, id) && loaded.active[id] == v
      ensures outcome.Cut? <==> failures != old(failures)
      ensures Now() == if outcome.Failure? || outcome == Cut(false) then loaded.(active := before) else loaded
    {
      var plugins := LoadInstalledPlugins(env);
      loaded := Now();
      MigrationKeepsLoading(env, old(Now()), loaded, id);
      if id in plugins && active[id] == v {
        return Success, loaded;
      }
      var ok, restored := SetPointer(id, previous);
      outcome := if ok then Failure else Cut(!restored);
    }

    /** Activates a version if the loader then returns it, else restores the pointer. */
    method ActivateVersion(env: Env, id: string, v: string) returns (outcome: Outcome)
      requires Valid()
      modifies this`active, this`installed, this`failures
      ensures Valid() && Step(env, old(Now()), Now(), Activate(id, v, outcome))
      ensures outcome.Cut? <==> failures != old(failures)
      ensures !outcome.Cut? ==>
                (outcome.Success? <==>
                  id != "plugin_api" && v != "" && Loads(env, old(Now()).(active := old(active)[id := v]), id))
    {
      var previous := if id in active then Some(active[id]) else None;
      var ok, pointed := SetPointer(id, Some(v));
      if !ok {
        return Cut(pointed);
      }
      ghost var loaded;
      outcome, loaded := KeepOrRestore(env, id, v, previous, old(active));
      PointAndCheck(env, old(Now()), loaded, id, v);
    }

    /** Lists a version with its hash, no longer as a migrated one; nothing else changes. */
    method WriteRecord(id: string, v: string, sha: string) returns (ok: bool, recorded: bool)
      requires sha != ""
      modifies this`installed, this`failures
      ensures (ok <==> failures == old(failures)) && (ok ==> recorded)
      ensures !recorded ==> installed == old(installed)
      ensures recorded ==>
        && id in installed && installed == old(installed)[id := installed[id]]
        && v in installed[id].versions && v !in installed[id].migrated
        && (id in old(installed) ==>
              && installed[id].versions - {v} == old(installed)[id].versions - {v}
              && installed[id].migrated == old(installed)[id].migrated - {v}
              && installed[id].hashes == old(installed)[id].hashes[v := sha])
        && (id !in old(installed) ==> installed[id] == Record({v}, map[v := sha], {}))
    {
      var r := if id in installed then installed[id] else Record({}, map[], {});
      ok, recorded := Writes();
      if recorded {
        installed := installed[id := Record(r.versions + {v}, r.hashes[v := sha], r.migrated - {v})];
      }
    }

    /** Records a version with its anchor, and points to it. */
    method RecordInstalledVersion(id: string, v: string, sha: string) returns (ok: bool, pointed: bool)
      requires Valid() && sha != ""
      modifies this`installed, this`active, this`failures
      ensures Valid() && (ok <==> failures == old(failures)) && (ok ==> pointed)
      ensures active == if pointed then Pointers(old(active)[id := v]) else old(active)
      ensures (pointed ==> Anchor(Now(), id, v) == Some(sha)) && OtherAnchorsKept(old(Now()), Now(), id, v)
      ensures pointed ==> v in installed[id].versions && v !in installed[id].migrated
    {
      var recorded;
      ok, recorded := WriteRecord(id, v, sha);
      pointed := false;
      if ok {
        ok, pointed := SetPointer(id, Some(v));
      }
    }

    /** The end of an install, once its directory is in place: record, point, load, roll back. */
    method RecordAndActivate(env: Env, id: string, v: string, sha: string, ghost s: Sys) returns (outcome: Outcome)
      requires Valid() && sha != "" && Now() == s.(disk := disk)
      requires forall k :: k in s.disk ==> k in disk && disk[k] == s.disk[k]
      requires forall k :: k in disk && k != (id, v) ==> k in s.disk
      modifies this`installed, this`active, this`failures
      ensures Valid() && Step(env, s, Now(), Install(id, v, outcome))
      ensures disk == old(disk)
      ensures outcome.Cut? <==> failures != old(failures)
      ensures !outcome.Cut? ==>
                && Anchor(Now(), id, v) == Some(sha)
                && (outcome.Success? <==> Loads(env, Now().(active := Pointers(s.active[id := v])), id))
    {
      var previous := if id in active then Some(active[id]) else None;
      AnchorsIgnoreDisk(s, disk, id, v);
      var ok, pointed := RecordInstalledVersion(id, v, sha);
      AnchorsStay(s, old(Now()), Now(), id, v);
      if !ok {
        return Cut(pointed);
      }
      ghost var recorded, loaded := Now(), Now();
      outcome, loaded := KeepOrRestore(env, id, v, previous, s.active);
      RecordAndCheck(env, s, recorded, loaded, id, v, sha);
      assert Anchor(Now(), id, v) == Anchor(loaded, id, v);
      assert Now().(active := Pointers(s.active[id := v])) == loaded;
    }

    /** Installs what the registry describes: `payload` is the fetched manifest and `fetched` the
        files that arrived. Success means the loader returns this version with the fetched bytes;
        failure leaves every pointer where it was. */
    method InstallFromRegistry(env: Env, id: string, v: string, expected: string, payload: Bytes, fetched: map<string, Bytes>)
      returns (outcome: Outcome)
      requires Valid() && expected != ""
      modifies this
      ensures Valid() && Step(env, old(Now()), Now(), Install(id, v, outcome))
      ensures outcome.Cut? <==> failures != old(failures)
      ensures !outcome.Cut? ==>
        (outcome.Success? <==>
          && Arrived(env, id, v, expected, payload, fetched)
          && ((id, v) in old(disk) ==> ExistingMatches(env, old(disk)[(id, v)], env.parse(payload).value, expected))
          && Loads(env, Now().(active := Pointers(old(active)[id := v])), id))
      ensures (id, v) !in old(disk) && (id, v) in disk ==>
        && env.sha(payload) == expected && env.parse(payload).Some?
        && PublishedAs(env, disk[(id, v)], payload, env.parse(payload).value)
      ensures outcome.Success? ==>
        var m, p := env.parse(payload).value, PackageAt(Now(), id, v);
        && Anchor(Now(), id, v) == Some(expected)
        && ((id, v) !in old(disk) ==> p == StagedPackage(payload, m, fetched))
        && ((id, v) in old(disk) ==> HoldsStaged(p, m, payload, fetched) || Collision(env.sha))
    {
      if env.sha(payload) != expected {
        return Failure;
      }
      var parsed := env.parse(payload);
      if parsed.None? || parsed.value.id != id || parsed.value.version != v || !env.compatible(parsed.value) {
        return Failure;
      }
      var m := parsed.value;
      if !FetchedOk(env, m, fetched) {
        return Failure;
      }
      var staged := StagedPackage(payload, m, fetched);
      if !env.installable(m, Files(staged)) {
        return Failure;
      }
      if (id, v) in disk {
        if !ExistingMatches(env, disk[(id, v)], m, expected) {
          return Failure;
        }
        MatchMeansSameFiles(env, disk[(id, v)], m, expected, payload, fetched);
      } else {
        var ok, _ := Writes();
        if !ok {
          return Cut(false);
        }
        FetchedAreDeclared(env, m, payload, fetched);
        disk := disk[(id, v) := staged];
      }
      outcome := RecordAndActivate(env, id, v, expected, old(Now()));
    }

    /** Forgets a plugin. Deleting its directories is best effort. */
    method RemovePlugin(env: Env, id: string) returns (ok: bool, unpointed: bool)
      requires Valid()
      modifies this
      ensures Valid() && Step(env, old(Now()), Now(), Remove(id, unpointed))
      ensures (ok <==> failures == old(failures)) && (ok ==> unpointed)
    {
      var forgotten;
      ok, forgotten := Writes();
      unpointed := false;
      if forgotten {
        installed := installed - {id};
      }
      if !ok { return; }
      unpointed := true;
      if id in active {
        ok, unpointed := SetPointer(id, None);
        if !ok { return; }
      }
      var kept: set<(string, string)> := *;
      disk := map k | k in disk && (k.0 != id || k in kept) :: disk[k];
    }

    method SetPluginDisabled(env: Env, id: string, off: bool) returns (ok: bool, written: bool)
      requires Valid()
      modifies this`disabled, this`failures
      ensures Valid() && (ok <==> failures == old(failures)) && (ok ==> written)
      ensures if written then Step(env, old(Now()), Now(), SetDisabled(id, off)) else Now() == old(Now())
      ensures written && off ==> !Loads(env, Now(), id)
    {
      ok, written := Writes();
      if written {
        disabled := if off then disabled + {id} else disabled - {id};
      }
    }
  }
}
