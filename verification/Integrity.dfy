/** Re-validation of an installed plugin version: the manifest against a trusted hash, every
    declared file against the manifest, and nothing beside them. */
module Integrity {
  import opened Wrappers

  import Utf8

  type Bytes = seq<Utf8.byte>

  /** What a path of a package directory holds. Directories and missing paths are not listed. */
  datatype Node = Regular(data: Bytes) | Link(target: Option<Bytes>)

  /** `nodes` says what every path holds, also those that lead through the linked directories. A
      path is opened through these, but a scan of the package does not descend into them. */
  datatype Package = Package(isLink: bool, nodes: map<string, Node>, linkedDirs: set<string>)

  const NoPackage := Package(false, map[], {})

  datatype FileEntry = FileEntry(path: string, size: nat, sha256: string)

  datatype Manifest = Manifest(id: string, version: string, files: seq<FileEntry>)

  /** What is left abstract: SHA-256, the manifest parser and validator, the
      compatibility test, the shape of plugin ids, the checks of a package's entrypoints, and the
      installer's further checks of a manifest and its staged files. */
  datatype Env = Env(
    sha: Bytes -> string,
    parse: Bytes -> Option<Manifest>,
    compatible: Manifest -> bool,
    validId: string -> bool,
    entrypointsOk: map<string, Bytes> -> bool,
    installable: (Manifest, map<string, Bytes>) -> bool)

  const MANIFEST := "manifest.json"

  predicate IsFile(n: Node)
  {
    n.Regular? || n.target.Some?
  }

  function Data(n: Node): Bytes
    requires IsFile(n)
  {
    if n.Regular? then n.data else n.target.value
  }

  /** Every file of a package with the bytes that reading it gives. */
  function Files(p: Package): map<string, Bytes>
  {
    map path | path in p.nodes && IsFile(p.nodes[path]) :: Data(p.nodes[path])
  }

  /** The path leads through a linked directory. */
  predicate Hidden(p: Package, path: string)
  {
    exists d :: d in p.linkedDirs && d + "/" <= path
  }

  function ManifestBytes(p: Package): Option<Bytes>
  {
    if MANIFEST in Files(p) then Some(Files(p)[MANIFEST]) else None
  }

  // ----- The check -----------------------------------------------------------------------------

  predicate EntryOk(env: Env, p: Package, e: FileEntry)
  {
    && e.path in p.nodes && p.nodes[e.path].Regular?
    && |p.nodes[e.path].data| == e.size
    && env.sha(p.nodes[e.path].data) == e.sha256
  }

  predicate Declares(m: Manifest, path: string)
  {
    exists k :: 0 <= k < |m.files| && m.files[k].path == path
  }

  /** The package is what its manifest says, and the manifest is the one trusted, if any is. */
  ghost predicate Verified(env: Env, p: Package, expected: Option<string>)
  {
    && !p.isLink
    && ManifestBytes(p).Some?
    && (expected.Some? && expected.value != "" ==> env.sha(ManifestBytes(p).value) == expected.value)
    && var m := env.parse(ManifestBytes(p).value);
    && m.Some?
    && (forall k :: 0 <= k < |m.value.files| ==> EntryOk(env, p, m.value.files[k]))
    && (forall path :: path in Files(p) && !Hidden(p, path) && path != MANIFEST ==> Declares(m.value, path))
  }

  datatype Problem =
    | PackageIsSymlink
    | MissingManifest
    | HashMismatch
    | InvalidManifest
    | SymlinkPayload(path: string)
    | MissingPayload(path: string)
    | SizeMismatch(path: string)
    | ShaMismatch(path: string)
    | UnexpectedFile(path: string)

  /** Reports no problem exactly for a verified package. */
  method VerifyVersionDir(env: Env, p: Package, expected: Option<string>) returns (errors: seq<Problem>)
    ensures errors == [] <==> Verified(env, p, expected)
  {
    errors := [];
    if p.isLink {
      return [PackageIsSymlink];
    }
    if expected.Some? && expected.value != "" {
      if ManifestBytes(p).None? {
        return [MissingManifest];
      }
      if env.sha(ManifestBytes(p).value) != expected.value {
        return [HashMismatch];
      }
    }
    if ManifestBytes(p).None? {
      return [MissingManifest];
    }
    var raw := env.parse(ManifestBytes(p).value);
    if raw.None? {
      return [InvalidManifest];
    }
    var m := raw.value;
    var declared: set<string> := {};
    var k := 0;
    while k < |m.files|
      invariant 0 <= k <= |m.files|
      invariant errors == [] <==> forall j :: 0 <= j < k ==> EntryOk(env, p, m.files[j])
      invariant forall path :: path in declared <==> exists j :: 0 <= j < k && m.files[j].path == path
    {
      var e := m.files[k];
      declared := declared + {e.path};
      if e.path in p.nodes && p.nodes[e.path].Link? {
        errors := errors + [SymlinkPayload(e.path)];
      } else if e.path !in p.nodes {
        errors := errors + [MissingPayload(e.path)];
      } else {
        var data := p.nodes[e.path].data;
        if |data| != e.size {
          errors := errors + [SizeMismatch(e.path)];
        } else if env.sha(data) != e.sha256 {
          errors := errors + [ShaMismatch(e.path)];
        }
      }
      k := k + 1;
    }
    ghost var payloadOk := errors == [];
    ghost var scanned := set path | path in Files(p) && !Hidden(p, path);
    var unseen := set path | path in Files(p) && !Hidden(p, path);
    while unseen != {}
      invariant unseen <= scanned
      invariant errors == [] <==>
        payloadOk && forall path :: path in scanned - unseen && path != MANIFEST ==> path in declared
      decreases unseen
    {
      var path :| path in unseen;
      unseen := unseen - {path};
      if path != MANIFEST && path !in declared {
        errors := errors + [UnexpectedFile(path)];
      }
    }
    assert forall path :: path in declared <==> Declares(m, path);
  }

  /** What a package must be to pass, in terms of what its paths hold: neither it nor a declared
      file is a link, the declared files have their sizes and hashes, and whatever else is a file,
      or links to one, is the manifest or lies below a linked directory. */
  lemma VerifiedExactly(env: Env, p: Package, expected: Option<string>)
    ensures Verified(env, p, expected) <==>
      && !p.isLink
      && MANIFEST in p.nodes && (p.nodes[MANIFEST].Regular? || p.nodes[MANIFEST].target.Some?)
      && var bytes := if p.nodes[MANIFEST].Regular? then p.nodes[MANIFEST].data else p.nodes[MANIFEST].target.value;
      && (expected == None || expected == Some("") || expected == Some(env.sha(bytes)))
      && env.parse(bytes).Some?
      && var files := env.parse(bytes).value.files;
      && (forall k :: 0 <= k < |files| ==>
            && files[k].path in p.nodes && p.nodes[files[k].path].Regular?
            && |p.nodes[files[k].path].data| == files[k].size
            && env.sha(p.nodes[files[k].path].data) == files[k].sha256)
      && (forall path :: path in p.nodes && (p.nodes[path].Regular? || p.nodes[path].target.Some?) ==>
            || path == MANIFEST || (exists k :: 0 <= k < |files| && files[k].path == path)
            || (exists d :: d in p.linkedDirs && d + "/" <= path))
  {
    var hasManifest := MANIFEST in p.nodes && (p.nodes[MANIFEST].Regular? || p.nodes[MANIFEST].target.Some?);
    assert ManifestBytes(p).Some? <==> hasManifest;
    if hasManifest && env.parse(ManifestBytes(p).value).Some? {
      var m := env.parse(ManifestBytes(p).value).value;
      EntriesExactly(env, p, m);
      ScanExactly(p, m);
    }
  }

  lemma EntriesExactly(env: Env, p: Package, m: Manifest)
    ensures (forall k :: 0 <= k < |m.files| ==> EntryOk(env, p, m.files[k])) <==>
            (forall k :: 0 <= k < |m.files| ==>
              && m.files[k].path in p.nodes && p.nodes[m.files[k].path].Regular?
              && |p.nodes[m.files[k].path].data| == m.files[k].size
              && env.sha(p.nodes[m.files[k].path].data) == m.files[k].sha256)
  {
  }

  lemma ScanExactly(p: Package, m: Manifest)
    ensures (forall path :: path in Files(p) && !Hidden(p, path) && path != MANIFEST ==> Declares(m, path)) <==>
            (forall path :: path in p.nodes && (p.nodes[path].Regular? || p.nodes[path].target.Some?) ==>
              || path == MANIFEST || (exists k :: 0 <= k < |m.files| && m.files[k].path == path)
              || (exists d :: d in p.linkedDirs && d + "/" <= path))
  {
    if forall path :: path in Files(p) && !Hidden(p, path) && path != MANIFEST ==> Declares(m, path) {
      forall path | path in p.nodes && (p.nodes[path].Regular? || p.nodes[path].target.Some?) && path != MANIFEST
        ensures (exists k :: 0 <= k < |m.files| && m.files[k].path == path) || (exists d :: d in p.linkedDirs && d + "/" <= path)
      {
        assert path in Files(p);
        assert Hidden(p, path) || Declares(m, path);
      }
    } else {
      var path :| path in Files(p) && !Hidden(p, path) && path != MANIFEST && !Declares(m, path);
      assert path in p.nodes && (p.nodes[path].Regular? || p.nodes[path].target.Some?);
    }
  }

  // ----- What a trusted hash pins down ---------------------------------------------------------

  ghost predicate Collision(sha: Bytes -> string)
  {
    exists x: Bytes, y: Bytes :: x != y && sha(x) == sha(y)
  }

  lemma NoCollision(sha: Bytes -> string, x: Bytes, y: Bytes)
    requires sha(x) == sha(y)
    ensures x == y || Collision(sha)
  {
  }

  /** The files that a manifest pins down: itself and what it declares. */
  function PinnedFiles(p: Package, m: Manifest): map<string, Bytes>
  {
    map path | path in Files(p) && (path == MANIFEST || Declares(m, path)) :: Files(p)[path]
  }

  /** What it does not pin down: undeclared files below a linked directory. */
  function StrayFiles(p: Package, m: Manifest): map<string, Bytes>
  {
    map path | path in Files(p) && Hidden(p, path) && path != MANIFEST && !Declares(m, path) :: Files(p)[path]
  }

  lemma PinnedAndStray(env: Env, p: Package, expected: Option<string>)
    requires Verified(env, p, expected)
    ensures var m := env.parse(ManifestBytes(p).value).value;
            && Files(p) == PinnedFiles(p, m) + StrayFiles(p, m)
            && PinnedFiles(p, m).Keys !! StrayFiles(p, m).Keys
  {
  }

  lemma SameBytesAt(env: Env, a: Package, b: Package, hash: string, path: string)
    requires hash != "" && Verified(env, a, Some(hash)) && Verified(env, b, Some(hash))
    requires !Collision(env.sha)
    ensures env.parse(ManifestBytes(a).value) == env.parse(ManifestBytes(b).value)
    ensures var m := env.parse(ManifestBytes(a).value).value;
            path in PinnedFiles(a, m) ==> path in PinnedFiles(b, m) && Files(a)[path] == Files(b)[path]
  {
    NoCollision(env.sha, ManifestBytes(a).value, ManifestBytes(b).value);
    var m := env.parse(ManifestBytes(a).value).value;
    if path != MANIFEST && Declares(m, path) {
      var k :| 0 <= k < |m.files| && m.files[k].path == path;
      assert EntryOk(env, a, m.files[k]) && EntryOk(env, b, m.files[k]);
      NoCollision(env.sha, Files(a)[path], Files(b)[path]);
    }
  }

  lemma PinnedIsFixed(env: Env, a: Package, b: Package, hash: string)
    requires hash != "" && Verified(env, a, Some(hash)) && Verified(env, b, Some(hash))
    requires !Collision(env.sha)
    ensures ManifestBytes(a) == ManifestBytes(b)
    ensures var m := env.parse(ManifestBytes(a).value).value; PinnedFiles(a, m) == PinnedFiles(b, m)
  {
    NoCollision(env.sha, ManifestBytes(a).value, ManifestBytes(b).value);
    var m := env.parse(ManifestBytes(a).value).value;
    forall path
      ensures path in PinnedFiles(a, m) <==> path in PinnedFiles(b, m)
      ensures path in PinnedFiles(a, m) ==> PinnedFiles(a, m)[path] == PinnedFiles(b, m)[path]
    {
      SameBytesAt(env, a, b, hash, path);
      SameBytesAt(env, b, a, hash, path);
    }
  }

  /** The same manifest and the same declared files with the same bytes. The packages are the same
      altogether exactly if they have the same undeclared files below linked directories; in
      particular, a package that holds none is the same as another exactly if that holds none. */
  ghost predicate SameButStrays(env: Env, a: Package, b: Package)
  {
    && ManifestBytes(a).Some? && ManifestBytes(a) == ManifestBytes(b)
    && var m := env.parse(ManifestBytes(a).value);
    && m.Some?
    && PinnedFiles(a, m.value) == PinnedFiles(b, m.value)
    && (Files(a) == Files(b) <==> StrayFiles(a, m.value) == StrayFiles(b, m.value))
    && (StrayFiles(b, m.value) == map[] ==> (Files(a) == Files(b) <==> StrayFiles(a, m.value) == map[]))
  }

  /** What two packages have in common that verify against the same manifest hash, unless SHA-256
      itself collides. */
  lemma SameAnchorSameFiles(env: Env, a: Package, b: Package, hash: string)
    requires hash != "" && Verified(env, a, Some(hash)) && Verified(env, b, Some(hash))
    ensures SameButStrays(env, a, b) || Collision(env.sha)
  {
    if !Collision(env.sha) {
      PinnedIsFixed(env, a, b, hash);
      PinnedAndStray(env, a, Some(hash));
      PinnedAndStray(env, b, Some(hash));
      var m := env.parse(ManifestBytes(a).value).value;
      SplitMaps(PinnedFiles(a, m), StrayFiles(a, m), StrayFiles(b, m));
    }
  }

  lemma SplitMaps(pinned: map<string, Bytes>, a: map<string, Bytes>, b: map<string, Bytes>)
    requires pinned.Keys !! a.Keys && pinned.Keys !! b.Keys
    ensures pinned + a == pinned + b <==> a == b
  {
    if pinned + a == pinned + b {
      forall x
        ensures x in a <==> x in b
        ensures x in a ==> a[x] == b[x]
      {
        assert x in pinned + a <==> x in pinned + b;
        if x in a { assert (pinned + a)[x] == a[x] && (pinned + b)[x] == b[x]; }
      }
    }
  }

  /** Without linked directories there is nothing that is not pinned down. */
  lemma NoLinksNoStrays(p: Package, m: Manifest)
    requires p.linkedDirs == {}
    ensures StrayFiles(p, m) == map[]
  {
  }

  /** And strays do get past the check: to any verified package a linked directory with an
      undeclared file can be added. */
  lemma StraysAreNotSeen(env: Env, p: Package, hash: string, dir: string, path: string, data: Bytes)
    requires Verified(env, p, Some(hash)) && dir + "/" <= path && path !in p.nodes && path != MANIFEST
    requires !Declares(env.parse(ManifestBytes(p).value).value, path)
    ensures var p' := Package(p.isLink, p.nodes[path := Regular(data)], p.linkedDirs + {dir});
            Verified(env, p', Some(hash)) && Files(p') == Files(p)[path := data]
  {
    var p' := Package(p.isLink, p.nodes[path := Regular(data)], p.linkedDirs + {dir});
    assert Hidden(p', path);
    assert Files(p') == Files(p)[path := data];
    var m := env.parse(ManifestBytes(p).value).value;
    assert forall k :: 0 <= k < |m.files| ==> EntryOk(env, p, m.files[k]);
    assert forall q :: Hidden(p, q) ==> Hidden(p', q);
  }
}
