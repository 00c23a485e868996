/** The in-memory file tree. A normalised absolute path is the list of its components, so that
    "p starts with q + '/'" is "q is a proper prefix of p". */
module FileTree {
  import opened Wrappers
  import opened Utf8

  type Path = seq<string>

  datatype Failure = NotFound | IsADirectory

  function Parent(p: Path): Path
  {
    if p == [] then [] else p[..|p| - 1]
  }

  ghost function Above(p: Path): set<Path>
  {
    set k | 0 <= k < |p| :: p[..k]
  }

  /** Where `p`, at or below `src`, goes when `src` becomes `dst`. */
  function Image(src: Path, dst: Path, p: Path): Path
    requires src <= p
  {
    dst + p[|src|..]
  }

  ghost function Under(s: set<Path>, src: Path): set<Path>
  {
    set p | p in s && src <= p
  }

  ghost function Images(s: set<Path>, src: Path, dst: Path): set<Path>
  {
    set p | p in s && src <= p :: Image(src, dst, p)
  }

  /** Every directory and file has its parent among the directories. */
  ghost predicate Closed(dirs: set<Path>, files: set<Path>)
  {
    && [] in dirs
    && (forall p :: p in dirs ==> Parent(p) in dirs)
    && (forall p :: p in files ==> Parent(p) in dirs)
  }

  lemma {:induction false} AboveInDirs(dirs: set<Path>, files: set<Path>, p: Path, k: nat)
    requires Closed(dirs, files) && p in dirs && k <= |p|
    ensures p[..k] in dirs
    decreases |p|
  {
    if k < |p| {
      AboveInDirs(dirs, files, Parent(p), k);
      assert Parent(p)[..k] == p[..k];
    } else {
      assert p[..k] == p;
    }
  }

  /** Below a path that is no directory there is nothing. */
  lemma NothingBelow(dirs: set<Path>, files: set<Path>, top: Path, p: Path)
    requires Closed(dirs, files) && top !in dirs && top < p
    ensures p !in dirs && p !in files
  {
    assert p[..|top|] == top && Parent(p)[..|top|] == top;
    if p in dirs {
      AboveInDirs(dirs, files, p, |top|);
    }
    if p in files {
      AboveInDirs(dirs, files, Parent(p), |top|);
    }
  }

  ghost predicate AnythingBelow(dirs: set<Path>, files: set<Path>, path: Path)
  {
    exists p :: p in dirs + files && path < p
  }

  lemma BelowIsSome(dirs: set<Path>, files: set<Path>, path: Path, children: set<Path>)
    requires children == set p | p in dirs + files && path < p
    ensures AnythingBelow(dirs, files, path) <==> children != {}
  {
    if children != {} {
      var p :| p in children;
      assert p in dirs + files && path < p;
    }
    if AnythingBelow(dirs, files, path) {
      var p :| p in dirs + files && path < p;
      assert p in children;
    }
  }

  lemma PrefixCases(a: Path, p: Path)
    ensures a <= p <==> a == p || a < p
  {
    if a <= p && |a| == |p| {
      assert a == p;
    }
  }

  lemma SplitUnder(s: set<Path>, path: Path)
    ensures Under(s, path) == (set p | p in s && path < p) + (if path in s then {path} else {})
  {
    forall p | p in s ensures path <= p <==> path == p || path < p {
      PrefixCases(path, p);
    }
  }

  lemma PrefixesMeet(a: Path, b: Path, p: Path)
    requires a <= p && b <= p
    ensures a <= b || b <= a
  {
    assert a == p[..|a|] && b == p[..|b|];
  }

  lemma AboveMeets(a: Path, b: Path, p: Path)
    requires a <= p && p in Above(b)
    ensures a <= b
  {
  }

  /** Nothing lies under both of two paths that lie apart. */
  lemma ApartUnder(src: Path, dst: Path, p: Path)
    requires !(src <= dst) && !(dst <= src) && src <= p
    ensures !(dst <= p) && p !in Above(dst)
  {
    if dst <= p { PrefixesMeet(src, dst, p); }
    if p in Above(dst) { AboveMeets(src, dst, p); }
  }

  /** The directories above an image are images of directories, or above `dst`. */
  lemma AboveImage(dirs: set<Path>, files: set<Path>, src: Path, dst: Path, p: Path)
    requires Closed(dirs, files) && src < p && (p in dirs || p in files)
    ensures Above(Image(src, dst, p)) <= Above(dst) + Images(dirs, src, dst)
  {
    var image := Image(src, dst, p);
    forall k | 0 <= k < |image| ensures image[..k] in Above(dst) + Images(dirs, src, dst) {
      if k < |dst| {
        assert image[..k] == dst[..k];
      } else {
        var j := |src| + (k - |dst|);
        if p in dirs { AboveInDirs(dirs, files, p, j); } else { AboveInDirs(dirs, files, Parent(p), j); }
        assert Parent(p)[..j] == p[..j];
        assert src <= p[..j];
        assert image[..k] == Image(src, dst, p[..j]);
      }
    }
  }

  lemma ImageInjective(src: Path, dst: Path, p: Path, q: Path)
    requires src <= p && src <= q && Image(src, dst, p) == Image(src, dst, q)
    ensures p == q
  {
    assert p[|src|..] == Image(src, dst, p)[|dst|..];
    assert q[|src|..] == Image(src, dst, q)[|dst|..];
    assert p == src + p[|src|..] && q == src + q[|src|..];
  }

  /** The whole of `src` is at `dst`: the same relative directories, the same files with the same
      bytes. Nothing of it is left at `src`, and nothing else has changed but that the
      directories above `dst` exist. */
  ghost predicate MovedExactly(dirs: set<Path>, files: map<Path, seq<byte>>,
                               dirs': set<Path>, files': map<Path, seq<byte>>, src: Path, dst: Path)
  {
    && dirs' == (dirs - Under(dirs, src)) + Above(dst) + Images(dirs, src, dst)
    && files'.Keys == (files.Keys - Under(files.Keys, src)) + Images(files.Keys, src, dst)
    && (forall p :: p in files && !(src <= p) ==> p in files' && files'[p] == files[p])
    && (forall p :: p in files && src <= p ==> Image(src, dst, p) in files' && files'[Image(src, dst, p)] == files[p])
  }

  /** No path of the subtree is both a file and a directory. */
  ghost predicate Unambiguous(dirs: set<Path>, files: map<Path, seq<byte>>, src: Path)
  {
    forall p :: src <= p && p in files ==> p !in dirs
  }

  lemma RemovalKeepsClosed(dirs: set<Path>, files: set<Path>, path: Path)
    requires Closed(dirs, files) && path in dirs
    ensures Closed((dirs - Under(dirs, path)) + (if path == [] then {[]} else {}), files - Under(files, path))
  {
    forall p: Path | p in dirs + files && !(path <= p) ensures !(path <= Parent(p)) {
    }
  }

  /** What copying the members `done` of the subtree at `src` has made of the directories. */
  ghost predicate CopiedDirs(dirs: set<Path>, dirs': set<Path>, src: Path, dst: Path, done: set<Path>)
  {
    && dirs + Above(dst) + {dst} + Images(dirs * done, src, dst) <= dirs'
    && dirs' <= dirs + Above(dst) + Images(dirs, src, dst)
  }

  ghost predicate CopiedFiles(dirs: set<Path>, files: map<Path, seq<byte>>, files': map<Path, seq<byte>>,
                              src: Path, dst: Path, done: set<Path>)
  {
    && files'.Keys == files.Keys + Images((files.Keys - dirs) * done, src, dst)
    && (forall p :: p in files && !(dst <= p) ==> files'[p] == files[p])
    && (forall p :: p in files && p !in dirs && p in done && src <= p ==>
          Image(src, dst, p) in files' && files'[Image(src, dst, p)] == files[p])
  }

  lemma ImagesGrow(s: set<Path>, done: set<Path>, p: Path, src: Path, dst: Path)
    requires src <= p
    ensures Images(s * (done + {p}), src, dst) == Images(s * done, src, dst) + if p in s then {Image(src, dst, p)} else {}
  {
  }

  lemma CopyDirsOf(dirs: set<Path>, files: set<Path>, dirs': set<Path>, src: Path, dst: Path, done: set<Path>, p: Path)
    requires Closed(dirs, files) && CopiedDirs(dirs, dirs', src, dst, done)
    requires src < p && (p in dirs || p in files)
    ensures var image := Image(src, dst, p);
            CopiedDirs(dirs, dirs' + Above(image) + (if p in dirs then {image} else {}), src, dst, done + {p})
  {
    AboveImage(dirs, files, src, dst, p);
    ImagesGrow(dirs, done, p, src, dst);
  }

  lemma CopyFileOf(dirs: set<Path>, files: map<Path, seq<byte>>, files': map<Path, seq<byte>>,
                   src: Path, dst: Path, done: set<Path>, p: Path)
    requires CopiedFiles(dirs, files, files', src, dst, done)
    requires src < p && p !in dirs && p in files && !(dst <= p)
    ensures p in files' && CopiedFiles(dirs, files, files'[Image(src, dst, p) := files'[p]], src, dst, done + {p})
  {
    var image := Image(src, dst, p);
    ImagesGrow(files.Keys - dirs, done, p, src, dst);
    forall q | q in files && q !in dirs && q in done + {p} && src <= q
      ensures files'[image := files'[p]][Image(src, dst, q)] == files[q]
    {
      if Image(src, dst, q) == image {
        ImageInjective(src, dst, p, q);
      }
    }
  }

  lemma CopyNoFile(dirs: set<Path>, files: map<Path, seq<byte>>, files': map<Path, seq<byte>>,
                   src: Path, dst: Path, done: set<Path>, p: Path)
    requires CopiedFiles(dirs, files, files', src, dst, done) && src < p && p in dirs
    ensures CopiedFiles(dirs, files, files', src, dst, done + {p})
  {
    ImagesGrow(files.Keys - dirs, done, p, src, dst);
  }

  lemma NothingCopied(dirs: set<Path>, files: map<Path, seq<byte>>, src: Path, dst: Path)
    requires src in dirs
    ensures CopiedDirs(dirs, dirs + Above(dst) + {dst}, src, dst, {})
    ensures CopiedFiles(dirs, files, files, src, dst, {})
  {
    assert dst == Image(src, dst, src);
    assert Images(dirs * {}, src, dst) == {} && Images((files.Keys - dirs) * {}, src, dst) == {};
  }

  lemma StillADirectory(dirs: set<Path>, dirs': set<Path>, src: Path, dst: Path, p: Path)
    requires !(src <= dst) && !(dst <= src) && src <= p
    requires dirs <= dirs' <= dirs + Above(dst) + Images(dirs, src, dst)
    ensures p in dirs' <==> p in dirs
    ensures !(dst <= p)
  {
    ApartUnder(src, dst, p);
    assert forall q :: q in Images(dirs, src, dst) ==> dst <= q;
  }

  lemma CopyMemberOf(dirs: set<Path>, files: map<Path, seq<byte>>, dirs': set<Path>, files': map<Path, seq<byte>>,
                     src: Path, dst: Path, done: set<Path>, p: Path)
    requires Closed(dirs, files.Keys) && !(src <= dst) && !(dst <= src) && dirs <= dirs'
    requires CopiedDirs(dirs, dirs', src, dst, done) && CopiedFiles(dirs, files, files', src, dst, done)
    requires src < p && (p in dirs || p in files)
    ensures p in dirs' || p in files'
    ensures var image := Image(src, dst, p);
            && CopiedDirs(dirs, dirs' + Above(image) + (if p in dirs' then {image} else {}), src, dst, done + {p})
            && CopiedFiles(dirs, files, if p in dirs' then files' else files'[image := files'[p]], src, dst, done + {p})
  {
    StillADirectory(dirs, dirs', src, dst, p);
    CopyDirsOf(dirs, files.Keys, dirs', src, dst, done, p);
    if p in dirs {
      CopyNoFile(dirs, files, files', src, dst, done, p);
    } else {
      CopyFileOf(dirs, files, files', src, dst, done, p);
    }
  }

  lemma CopiedAll(dirs: set<Path>, files: map<Path, seq<byte>>, dirs': set<Path>, files': map<Path, seq<byte>>,
                  src: Path, dst: Path, all: set<Path>)
    requires src in dirs && src !in files && all == set p | p in dirs + files.Keys && src < p
    requires CopiedDirs(dirs, dirs', src, dst, all) && CopiedFiles(dirs, files, files', src, dst, all)
    ensures dirs' == dirs + Above(dst) + Images(dirs, src, dst)
    ensures files'.Keys == files.Keys + Images(files.Keys - dirs, src, dst)
    ensures forall p :: p in files && src <= p && p !in dirs ==> files'[Image(src, dst, p)] == files[p]
  {
    forall p | p in dirs + files.Keys && src <= p ensures p == src || src < p { PrefixCases(src, p); }
    assert Image(src, dst, src) == dst;
    assert Images(dirs, src, dst) <= Images(dirs * all, src, dst) + {dst};
    assert Images(files.Keys - dirs, src, dst) == Images((files.Keys - dirs) * all, src, dst);
  }

  lemma MovedFile(dirs: set<Path>, files: map<Path, seq<byte>>, src: Path, dst: Path)
    requires Closed(dirs, files.Keys) && src in files
    requires !(src <= dst) && !(dst <= src) && dst !in dirs && dst !in files
    ensures MovedExactly(dirs, files, dirs + Above(dst), files[dst := files[src]] - {src}, src, dst)
       <==> Unambiguous(dirs, files, src)
  {
    var files' := files[dst := files[src]] - {src};
    ApartUnder(src, dst, src);
    if src in dirs {
      assert src !in (dirs - Under(dirs, src)) + Above(dst) + Images(dirs, src, dst);
    } else {
      forall p | p in dirs + files.Keys && src <= p ensures p == src && p !in dirs {
        PrefixCases(src, p);
        if src < p { NothingBelow(dirs, files.Keys, src, p); }
      }
      assert Image(src, dst, src) == dst;
      assert Under(dirs, src) == {} && Images(dirs, src, dst) == {};
      assert Under(files.Keys, src) == {src} && Images(files.Keys, src, dst) == {dst};
    }
  }

  /** The files that arrive are all the files exactly if no path of the subtree is ambiguous. */
  lemma ImagesOfFiles(dirs: set<Path>, files: map<Path, seq<byte>>, src: Path, dst: Path)
    ensures Images(files.Keys - dirs, src, dst) == Images(files.Keys, src, dst) <==> Unambiguous(dirs, files, src)
  {
    if !Unambiguous(dirs, files, src) {
      var p :| src <= p && p in files && p in dirs;
      forall q | q in files.Keys - dirs && src <= q ensures Image(src, dst, q) != Image(src, dst, p) {
        if Image(src, dst, q) == Image(src, dst, p) { ImageInjective(src, dst, p, q); }
      }
      assert Image(src, dst, p) !in Images(files.Keys - dirs, src, dst);
    }
  }

  lemma ImagesBelow(s: set<Path>, src: Path, dst: Path, p: Path)
    requires p in Images(s, src, dst)
    ensures dst <= p
  {
  }

  lemma MovedDir(dirs: set<Path>, files: map<Path, seq<byte>>, dirs': set<Path>, files': map<Path, seq<byte>>,
                 src: Path, dst: Path)
    requires Closed(dirs, files.Keys) && src in dirs && src !in files
    requires !(src <= dst) && !(dst <= src) && dst !in dirs && dst !in files
    requires dirs' == dirs + Above(dst) + Images(dirs, src, dst)
    requires files'.Keys == files.Keys + Images(files.Keys - dirs, src, dst)
    requires forall p :: p in files && !(dst <= p) ==> files'[p] == files[p]
    requires forall p :: p in files && src <= p && p !in dirs ==> files'[Image(src, dst, p)] == files[p]
    ensures src !in files'
    ensures MovedExactly(dirs, files, dirs' - Under(dirs', src), files' - Under(files'.Keys, src), src, dst)
       <==> Unambiguous(dirs, files, src)
  {
    forall p: Path | src <= p ensures !(dst <= p) && p !in Above(dst) { ApartUnder(src, dst, p); }
    forall p | p in files ensures !(dst <= p) {
      PrefixCases(dst, p);
      if dst < p { NothingBelow(dirs, files.Keys, dst, p); }
    }
    assert dirs' - Under(dirs', src) == (dirs - Under(dirs, src)) + Above(dst) + Images(dirs, src, dst);
    var keys := (files' - Under(files'.Keys, src)).Keys;
    assert keys == (files.Keys - Under(files.Keys, src)) + Images(files.Keys - dirs, src, dst);
    ImagesOfFiles(dirs, files, src, dst);
    forall p | p in Images(files.Keys, src, dst) ensures p !in files.Keys - Under(files.Keys, src) {
      ImagesBelow(files.Keys, src, dst, p);
    }
  }

  class Tree {
    var files: map<Path, seq<byte>>
    var dirs: set<Path>

    ghost predicate Valid()
      reads this
    {
      Closed(dirs, files.Keys)
    }

    constructor ()
      ensures Valid() && files == map[] && dirs == {[]}
    {
      files, dirs := map[], {[]};
    }

    /** Creates the missing directories above `path`. */
    method EnsureParentDirs(path: Path)
      requires Valid()
      modifies this`dirs
      ensures Valid() && dirs == old(dirs) + Above(path) && Parent(path) in dirs
    {
      var cur := Parent(path);
      var missing: set<Path> := {};
      while cur !in dirs
        invariant cur <= path && (path != [] ==> |cur| < |path|) && (path == [] ==> cur == [])
        invariant missing == set k | |cur| < k < |path| :: path[..k]
        invariant missing !! dirs
        decreases |cur|
      {
        assert cur == path[..|cur|];
        missing := missing + {cur};
        cur := Parent(cur);
      }
      forall k | 0 <= k <= |cur| && path != [] ensures path[..k] in dirs {
        AboveInDirs(dirs, files.Keys, cur, k);
        assert cur[..k] == path[..k];
      }
      dirs := dirs + missing;
      forall p | p in missing ensures Parent(p) in dirs {
        var k :| |cur| < k < |path| && p == path[..k];
        assert Parent(p) == path[..k - 1];
        if k - 1 > |cur| { assert path[..k - 1] in missing; }
      }
      if path != [] {
        assert Parent(path) == path[..|path| - 1];
      }
    }

    method Mkdir(path: Path)
      requires Valid()
      modifies this`dirs
      ensures Valid() && dirs == old(dirs) + Above(path) + {path}
    {
      EnsureParentDirs(path);
      dirs := dirs + {path};
    }

    method WriteText(path: Path, data: seq<byte>)
      requires Valid()
      modifies this
      ensures Valid() && dirs == old(dirs) + Above(path) && files == old(files)[path := data]
    {
      EnsureParentDirs(path);
      files := files[path := data];
    }

    /** Nothing keeps a file from being written over a directory: its path is then both. */
    method WriteOverDirectory(path: Path, data: seq<byte>)
      requires Valid()
      modifies this
      ensures Valid() && path in dirs && !Unambiguous(dirs, files, path)
    {
      Mkdir(path);
      WriteText(path, data);
    }

    /** The names directly under `dir`, which are exactly the last components of its children. */
    method Children(dir: Path) returns (names: set<string>)
      requires Valid()
      ensures forall name :: name in names <==> dir + [name] in dirs || dir + [name] in files
    {
      names := set p | p in dirs + files.Keys && dir < p :: p[|dir|];
      forall name | name in names ensures dir + [name] in dirs || dir + [name] in files {
        var p :| p in dirs + files.Keys && dir < p && p[|dir|] == name;
        assert p[..|dir| + 1] == dir + [name];
        if p != dir + [name] && dir + [name] !in dirs {
          NothingBelow(dirs, files.Keys, dir + [name], p);
        }
      }
      forall name | dir + [name] in dirs + files.Keys ensures name in names {
        assert (dir + [name])[|dir|] == name && dir < dir + [name];
      }
    }

    /** Removes a directory with everything below it; the root itself stays. */
    method RemoveTree(path: Path)
      requires Valid() && path in dirs && path !in files
      modifies this
      ensures Valid()
      ensures dirs == (old(dirs) - Under(old(dirs), path)) + (if path == [] then {[]} else {})
      ensures files == old(files) - Under(old(files).Keys, path)
    {
      SplitUnder(files.Keys, path);
      SplitUnder(dirs, path);
      RemovalKeepsClosed(dirs, files.Keys, path);
      var children := set p | p in dirs + files.Keys && path < p;
      dirs := dirs - children;
      files := files - children;
      if path != [] {
        dirs := dirs - {path};
      }
    }

    /** Removes a file, or a directory with everything below it; the root itself stays. */
    method Remove(path: Path, recursive: bool) returns (failure: Option<Failure>)
      requires Valid()
      modifies this
      ensures Valid()
      ensures failure == if path in old(files) then None
                         else if path !in old(dirs) then Some(NotFound)
                         else if !recursive && AnythingBelow(old(dirs), old(files).Keys, path) then Some(IsADirectory)
                         else None
      ensures failure.Some? ==> dirs == old(dirs) && files == old(files)
      ensures failure.None? && path in old(files) ==> dirs == old(dirs) && files == old(files) - {path}
      ensures failure.None? && path !in old(files) ==>
                && dirs == (old(dirs) - Under(old(dirs), path)) + (if path == [] then {[]} else {})
                && files == old(files) - Under(old(files).Keys, path)
    {
      if path in files {
        files := files - {path};
        return None;
      }
      if path !in dirs {
        return Some(NotFound);
      }
      var children := set p | p in dirs + files.Keys && path < p;
      BelowIsSome(dirs, files.Keys, path, children);
      if children != {} && !recursive {
        return Some(IsADirectory);
      }
      RemoveTree(path);
      failure := None;
    }

    /** Copies one member of a subtree to its image. */
    method CopyMember(src: Path, dst: Path, path: Path)
      requires Valid() && src <= path && (path in dirs || path in files)
      modifies this
      ensures Valid()
      ensures dirs == old(dirs) + Above(Image(src, dst, path)) + if path in old(dirs) then {Image(src, dst, path)} else {}
      ensures files == if path in old(dirs) then old(files) else old(files)[Image(src, dst, path) := old(files)[path]]
    {
      var target := dst + path[|src|..];
      if path in dirs {
        Mkdir(target);
      } else {
        EnsureParentDirs(target);
        files := files[target := files[path]];
      }
    }

    /** Copies a directory with everything below it. */
    method CopyTree(src: Path, dst: Path, children: set<Path>)
      requires Valid() && src in dirs && src !in files && children == set p | p in dirs + files.Keys && src < p
      modifies this
      ensures Valid()
      ensures !(src <= dst) && !(dst <= src) ==>
                && dirs == old(dirs) + Above(dst) + Images(old(dirs), src, dst)
                && files.Keys == old(files).Keys + Images(old(files).Keys - old(dirs), src, dst)
                && (forall p :: p in old(files) && !(dst <= p) ==> files[p] == old(files)[p])
                && (forall p :: p in old(files) && src <= p && p !in old(dirs) ==> files[Image(src, dst, p)] == old(files)[p])
    {
      ghost var dirs0, files0 := dirs, files;
      ghost var apart := !(src <= dst) && !(dst <= src);
      assert dst == Image(src, dst, src);
      Mkdir(dst);
      var todo := children;
      NothingCopied(dirs0, files0, src, dst);
      while todo != {}
        invariant Valid() && todo <= children && dirs0 <= dirs && files0.Keys <= files.Keys
        invariant apart ==> CopiedDirs(dirs0, dirs, src, dst, children - todo)
        invariant apart ==> CopiedFiles(dirs0, files0, files, src, dst, children - todo)
        decreases todo
      {
        var path :| path in todo;
        if apart {
          CopyMemberOf(dirs0, files0, dirs, files, src, dst, children - todo, path);
          assert children - (todo - {path}) == children - todo + {path};
        }
        todo := todo - {path};
        CopyMember(src, dst, path);
      }
      if apart {
        CopiedAll(dirs0, files0, dirs, files, src, dst, children);
      }
    }

    /** Copies a file, or a directory with everything below it. */
    method Copy(src: Path, dst: Path, recursive: bool) returns (failure: Option<Failure>)
      requires Valid()
      modifies this
      ensures Valid()
      ensures src in old(files) ==>
                failure.None? && dirs == old(dirs) + Above(dst) && files == old(files)[dst := old(files)[src]]
      ensures failure == if src in old(files) then None
                         else if src !in old(dirs) then Some(NotFound)
                         else if !recursive && AnythingBelow(old(dirs), old(files).Keys, src) then Some(IsADirectory)
                         else None
      ensures failure.Some? ==> dirs == old(dirs) && files == old(files)
      ensures src !in old(files) && failure.None? && !(src <= dst) && !(dst <= src) ==>
                && dirs == old(dirs) + Above(dst) + Images(old(dirs), src, dst)
                && files.Keys == old(files).Keys + Images(old(files).Keys - old(dirs), src, dst)
                && (forall p :: p in old(files) && !(dst <= p) ==> files[p] == old(files)[p])
                && (forall p :: p in old(files) && src <= p && p !in old(dirs) ==> files[Image(src, dst, p)] == old(files)[p])
    {
      if src in files {
        EnsureParentDirs(dst);
        files := files[dst := files[src]];
        return None;
      }
      if src !in dirs {
        return Some(NotFound);
      }
      var children := set p | p in dirs + files.Keys && src < p;
      BelowIsSome(dirs, files.Keys, src, children);
      if children != {} && !recursive {
        return Some(IsADirectory);
      }
      CopyTree(src, dst, children);
      failure := None;
    }

    /** Moves a file or a directory with everything below it to a free path apart from it. The
        move is exact unless some path of the subtree is both a file and a directory: of such a
        path, only one of the two arrives. */
    method Move(src: Path, dst: Path) returns (failure: Option<Failure>)
      requires Valid()
      modifies this
      ensures Valid()
      ensures failure == if src in old(files) || src in old(dirs) then None else Some(NotFound)
      ensures failure.Some? ==> dirs == old(dirs) && files == old(files)
      ensures failure.None? && src != [] && !(src <= dst) && !(dst <= src) && dst !in old(dirs) && dst !in old(files) ==>
                (MovedExactly(old(dirs), old(files), dirs, files, src, dst) <==> Unambiguous(old(dirs), old(files), src))
    {
      if src !in files && src !in dirs {
        return Some(NotFound);
      }
      if !(src <= dst) && !(dst <= src) && dst !in dirs && dst !in files && src in files {
        MovedFile(dirs, files, src, dst);
      }
      var copied := Copy(src, dst, true);
      if !(src <= dst) && !(dst <= src) && dst !in old(dirs) && dst !in old(files) && src !in old(files) {
        MovedDir(old(dirs), old(files), dirs, files, src, dst);
      }
      var removed := Remove(src, true);
      failure := None;
    }
  }
}
