/** Synchronized browsing: a local path and a remote path name each other below two roots. This
    is the POSIX branch of the mapping; paths are absolute and start with one slash. */
module PathMapping {
  import opened Wrappers
  import opened Blanks
  import opened Seqs

  type Components = seq<string>

  // ----- posixpath.normpath of an absolute path ------------------------------------------------

  function Split(s: string): (r: Components)
    ensures r != []
  {
    if s == "" then [""]
    else if s[0] == '/' then [""] + Split(s[1..])
    else var rest := Split(s[1..]); [[s[0]] + rest[0]] + rest[1..]
  }

  /** Empty parts and "." go, ".." takes the part before it along. */
  function Resolve(parts: Components): Components
  {
    if parts == [] then []
    else
      var before := Resolve(parts[..|parts| - 1]);
      var part := parts[|parts| - 1];
      if part == "" || part == "." then before
      else if part != ".." then before + [part]
      else if before == [] then [] else before[..|before| - 1]
  }

  function Join(cs: Components): string
  {
    if cs == [] then "" else if |cs| == 1 then cs[0] else cs[0] + "/" + Join(cs[1..])
  }

  function NormPath(path: string): string
  {
    "/" + Join(Resolve(Split(path)))
  }

  // ----- The mapping ---------------------------------------------------------------------------

  /** `[part for part in path.split("/") if part and part != "."]` of the normalised path. */
  function PartsOf(path: string): Components
  {
    Kept(Split(NormPath(Strip(path))))
  }

  function Kept(parts: Components): Components
  {
    if parts == [] then []
    else (if parts[0] == "" || parts[0] == "." then [] else [parts[0]]) + Kept(parts[1..])
  }

  /** Whether the first components agree one by one. */
  predicate SameStart(target: Components, root: Components)
  {
    root == [] || (target != [] && target[0] == root[0] && SameStart(target[1..], root[1..]))
  }

  function RelativeComponents(path: string, root: string): Option<Components>
  {
    var target, base := PartsOf(path), PartsOf(root);
    if |target| < |base| || !SameStart(target, base) then None else Some(target[|base|..])
  }

  function WithoutSlash(path: string): string
  {
    if path != "" && path[|path| - 1] == '/' then WithoutSlash(path[..|path| - 1]) else path
  }

  function LocalToRemote(path: string, localRoot: string, remoteRoot: string): Option<string>
  {
    if Strip(remoteRoot) == "" || Strip(localRoot) == "" then None
    else match RelativeComponents(path, localRoot)
      case None => None
      case Some(components) =>
        var base := NormPath(Strip(remoteRoot));
        if components == [] then Some(base)
        else Some(NormPath(Strip(WithoutSlash(base) + "/" + Join(components))))
  }

  /** `os.path.join(root, *components)`. */
  function JoinPath(root: string, components: Components): string
    decreases |components|
  {
    if components == [] then root
    else JoinPath((if root != "" && root[|root| - 1] == '/' then root else root + "/") + components[0], components[1..])
  }

  function RemoteToLocal(path: string, localRoot: string, remoteRoot: string): Option<string>
  {
    if Strip(localRoot) == "" || Strip(remoteRoot) == "" then None
    else match RelativeComponents(path, remoteRoot)
      case None => None
      case Some(components) => Some(JoinPath(NormPath(Strip(localRoot)), components))
  }

  // ----- Components and their texts ------------------------------------------------------------

  predicate Normal(cs: Components)
  {
    forall k :: 0 <= k < |cs| ==> cs[k] != "" && cs[k] != "." && cs[k] != ".." && '/' !in cs[k]
  }

  function Slashed(cs: Components): string
  {
    if cs == [] then "" else "/" + cs[0] + Slashed(cs[1..])
  }

  lemma {:induction false} JoinIsSlashed(cs: Components)
    ensures cs != [] ==> "/" + Join(cs) == Slashed(cs)
  {
    if |cs| > 1 {
      JoinIsSlashed(cs[1..]);
      assert "/" + Join(cs) == "/" + cs[0] + ("/" + Join(cs[1..]));
    } else if |cs| == 1 {
      assert Slashed(cs[1..]) == "";
    }
  }

  lemma SplitAfterSlash(rest: string)
    ensures Split("/" + rest) == [""] + Split(rest)
  {
    TakeAppend("/", rest);
  }

  lemma SplitLetter(c: char, rest: string)
    requires c != '/'
    ensures var r := Split(rest); Split([c] + rest) == [[c] + r[0]] + r[1..]
  {
    TakeAppend([c], rest);
  }

  lemma {:induction false} SplitAt(c: string, rest: string)
    requires '/' !in c
    ensures Split(c + ("/" + rest)) == [c] + Split(rest)
    ensures Split(c) == [c]
  {
    if c == "" {
      Whole("/" + rest);
      SplitAfterSlash(rest);
    } else {
      SplitAt(c[1..], rest);
      HeadTail(c);
      Assoc([c[0]], c[1..], "/" + rest);
      SplitLetter(c[0], c[1..] + ("/" + rest));
      SplitLetter(c[0], c[1..]);
      assert ([c[1..]] + Split(rest))[1..] == Split(rest);
    }
  }

  lemma {:induction false} SplitSlashed(cs: Components)
    requires Normal(cs) && cs != []
    ensures Split(Slashed(cs)) == [""] + cs
  {
    var c, rest := cs[0], cs[1..];
    HeadTail(cs);
    Assoc("/", c, Slashed(rest));
    SplitAfterSlash(c + Slashed(rest));
    if rest == [] {
      Whole(c);
      SplitAt(c, "");
    } else {
      SplitSlashed(rest);
      var inner := rest[0] + Slashed(rest[1..]);
      Assoc("/", rest[0], Slashed(rest[1..]));
      SplitAfterSlash(inner);
      SplitAt(c, inner);
      TakeAppend([""], Split(inner));
      TakeAppend([""], rest);
      assert Split(inner) == rest;
    }
  }

  lemma {:induction false} SplitHasNoSlash(s: string)
    ensures forall k :: 0 <= k < |Split(s)| ==> '/' !in Split(s)[k]
  {
    if s != "" {
      SplitHasNoSlash(s[1..]);
    }
  }

  lemma {:induction false} ResolveIsNormal(parts: Components)
    requires forall k :: 0 <= k < |parts| ==> '/' !in parts[k]
    ensures Normal(Resolve(parts))
  {
    if parts != [] {
      ResolveIsNormal(parts[..|parts| - 1]);
    }
  }

  lemma {:induction false} ResolveNormal(cs: Components)
    requires Normal(cs)
    ensures Resolve([""] + cs) == cs
  {
    if cs == [] {
      assert Resolve([""]) == Resolve([""][..0]);
    } else {
      var n := |cs| - 1;
      ResolveNormal(cs[..n]);
      assert ([""] + cs)[..n + 1] == [""] + cs[..n];
      assert cs == cs[..n] + [cs[n]];
    }
  }

  lemma {:induction false} KeptNormal(cs: Components)
    requires Normal(cs)
    ensures Kept(cs) == cs
  {
    if cs != [] {
      KeptNormal(cs[1..]);
      assert cs == [cs[0]] + cs[1..];
    }
  }

  function Render(cs: Components): string
  {
    "/" + Join(cs)
  }

  /** The components a path stands for. */
  function Comps(path: string): Components
  {
    Resolve(Split(Strip(path)))
  }

  lemma CompsNormal(path: string)
    ensures Normal(Comps(path)) && NormPath(Strip(path)) == Render(Comps(path))
  {
    SplitHasNoSlash(Strip(path));
    ResolveIsNormal(Split(Strip(path)));
  }

  lemma SplitRendered(cs: Components)
    requires Normal(cs)
    ensures Split(Render(cs)) == [""] + (if cs == [] then [""] else cs)
  {
    if cs == [] {
      assert "/"[1..] == "" && Render(cs) == "/";
    } else {
      JoinIsSlashed(cs);
      SplitSlashed(cs);
    }
  }

  lemma PartsAreComps(path: string)
    ensures PartsOf(path) == Comps(path)
  {
    var cs := Comps(path);
    CompsNormal(path);
    SplitRendered(cs);
    KeptNormal(cs);
    if cs == [] {
      assert ([""] + [""])[1..] == [""];
      assert Kept([""]) == Kept([""][1..]) == [];
    } else {
      assert ([""] + cs)[1..] == cs;
    }
  }

  lemma RenderInjective(a: Components, b: Components)
    requires Normal(a) && Normal(b) && Render(a) == Render(b)
    ensures a == b
  {
    SplitRendered(a);
    SplitRendered(b);
    assert ([""] + (if a == [] then [""] else a))[1..] == ([""] + (if b == [] then [""] else b))[1..];
  }

  lemma {:induction false} SlashedAppend(a: Components, b: Components)
    ensures Slashed(a + b) == Slashed(a) + Slashed(b)
  {
    if a == [] {
      assert a + b == b;
    } else {
      SlashedAppend(a[1..], b);
      assert (a + b)[1..] == a[1..] + b && (a + b)[0] == a[0];
    }
  }

  lemma {:induction false} SlashedEnd(cs: Components)
    requires Normal(cs) && cs != []
    ensures var last := cs[|cs| - 1];
            && |Slashed(cs)| > |last|
            && Slashed(cs)[|Slashed(cs)| - 1] == last[|last| - 1] != '/'
  {
    var n := |cs| - 1;
    SlashedAppend(cs[..n], cs[n..]);
    assert cs == cs[..n] + cs[n..] && cs[n..] == [cs[n]];
    assert Slashed(cs[n..]) == "/" + cs[n] + Slashed([]);
    assert cs[n][|cs[n]| - 1] in cs[n];
  }

  /** The text of these components does not end in a blank. */
  predicate Tidy(cs: Components)
  {
    cs == [] || (cs[|cs| - 1] != "" && !IsSpace(cs[|cs| - 1][|cs[|cs| - 1]| - 1]))
  }

  lemma RenderedEnd(cs: Components)
    requires Normal(cs)
    ensures Tidy(cs) <==> !IsSpace(Render(cs)[|Render(cs)| - 1])
  {
    if cs != [] {
      JoinIsSlashed(cs);
      SlashedEnd(cs);
    }
  }

  // ----- Normalising never lengthens an absolute path ------------------------------------------

  function Length(parts: Components): nat
  {
    if parts == [] then 0 else Length(parts[..|parts| - 1]) + |parts[|parts| - 1]| + 1
  }

  lemma {:induction false} LengthAppend(a: Components, b: Components)
    ensures Length(a + b) == Length(a) + Length(b)
  {
    if b == [] {
      assert a + b == a;
    } else {
      var n := |b| - 1;
      LengthAppend(a, b[..n]);
      assert (a + b)[..|a| + n] == a + b[..n];
    }
  }

  lemma {:induction false} SplitLength(s: string)
    ensures Length(Split(s)) == |s| + 1
  {
    if s == "" {
      assert Length([""][..0]) == 0;
    } else {
      var rest := Split(s[1..]);
      SplitLength(s[1..]);
      var head := if s[0] == '/' then "" else [s[0]] + rest[0];
      var tail := if s[0] == '/' then rest else rest[1..];
      LengthAppend([head], tail);
      LengthAppend([rest[0]], rest[1..]);
      assert rest == [rest[0]] + rest[1..];
      assert [head][..0] == [] && [rest[0]][..0] == [];
    }
  }

  lemma {:induction false} ResolveLength(parts: Components)
    ensures Length(Resolve(parts)) <= Length(parts)
  {
    if parts != [] {
      ResolveLength(parts[..|parts| - 1]);
    }
  }

  lemma {:induction false} ResolveHead(parts: Components)
    ensures Resolve([""] + parts) == Resolve(parts)
  {
    if parts == [] {
      assert Resolve([""]) == Resolve([""][..0]);
    } else {
      var n := |parts| - 1;
      ResolveHead(parts[..n]);
      assert ([""] + parts)[..n + 1] == [""] + parts[..n];
    }
  }

  lemma {:induction false} SlashedLength(cs: Components)
    ensures |Slashed(cs)| == Length(cs)
  {
    if cs != [] {
      SlashedLength(cs[1..]);
      LengthAppend([cs[0]], cs[1..]);
      assert cs == [cs[0]] + cs[1..] && [cs[0]][..0] == [];
    }
  }

  lemma NormPathShortens(s: string)
    requires s != "" && s[0] == '/'
    ensures |NormPath(s)| <= |s|
  {
    var parts := Split(s[1..]);
    var cs := Resolve(parts);
    assert Split(s) == [""] + parts;
    ResolveHead(parts);
    ResolveLength(parts);
    SplitLength(s[1..]);
    SlashedLength(cs);
    JoinIsSlashed(cs);
  }

  // ----- Reading a rendered path back ----------------------------------------------------------

  /** A rendered path reads back as its components exactly when it does not end in a blank. */
  lemma ReadBack(cs: Components)
    requires Normal(cs)
    ensures Comps(Render(cs)) == cs <==> Tidy(cs)
    ensures Tidy(cs) ==> Strip(Render(cs)) == Render(cs)
    ensures !Tidy(cs) ==> |Slashed(Comps(Render(cs)))| < |Slashed(cs)|
  {
    var r := Render(cs);
    RenderedEnd(cs);
    RenderIsSlashed(cs);
    StripEnds(r);
    if Tidy(cs) {
      StripPlain(r);
      SplitRendered(cs);
      ResolveNormal(cs);
      if cs == [] {
        ResolveHead([""]);
        ResolveHead([]);
        assert [""] + [] == [""];
      }
    } else {
      CompsNormal(r);
      NormPathShortens(Strip(r));
      RenderIsSlashed(Comps(r));
    }
  }

  lemma {:induction false} JoinedPath(base: Components, components: Components)
    requires Normal(base) && Normal(components)
    ensures JoinPath(Render(base), components) == Render(base + components)
    decreases |components|
  {
    if components == [] {
      assert base + components == base;
    } else {
      var longer := base + [components[0]];
      JoinPath1(base, components[0]);
      JoinedPath(longer, components[1..]);
      assert longer + components[1..] == base + components;
    }
  }

  lemma RenderIsSlashed(cs: Components)
    ensures Render(cs) == if cs == [] then "/" else Slashed(cs)
  {
    JoinIsSlashed(cs);
  }

  lemma JoinPath1(base: Components, c: string)
    requires Normal(base) && Normal([c])
    ensures var root := Render(base);
            (if root != "" && root[|root| - 1] == '/' then root else root + "/") + c == Render(base + [c])
  {
    RenderIsSlashed(base);
    RenderIsSlashed(base + [c]);
    SlashedAppend(base, [c]);
    SlashedOne(c);
    if base == [] {
      Whole("/" + c);
    } else {
      SlashedEnd(base);
      Assoc(Slashed(base), "/", c);
    }
  }

  lemma SlashedOne(c: string)
    ensures Slashed([c]) == "/" + c
  {
    assert Slashed([c]) == "/" + c + Slashed([]);
  }

  lemma WithoutItsSlash(base: Components)
    requires Normal(base)
    ensures WithoutSlash(Render(base)) == Slashed(base)
  {
    RenderIsSlashed(base);
    if base == [] {
      assert "/"[..0] == "" && WithoutSlash("") == "";
    } else {
      SlashedEnd(base);
    }
  }

  lemma JoinedBase(base: Components, components: Components)
    requires Normal(base) && Normal(components) && components != []
    ensures WithoutSlash(Render(base)) + "/" + Join(components) == Render(base + components)
  {
    WithoutItsSlash(base);
    RenderIsSlashed(base + components);
    JoinIsSlashed(components);
    SlashedAppend(base, components);
    Assoc(Slashed(base), "/", Join(components));
  }

  lemma {:induction false} SameStartIsPrefix(target: Components, root: Components)
    ensures SameStart(target, root) <==> root <= target
  {
    if root != [] && target != [] {
      SameStartIsPrefix(target[1..], root[1..]);
      if root[1..] <= target[1..] && root[0] == target[0] {
        assert root == [root[0]] + root[1..] && target == [target[0]] + target[1..];
      }
    }
  }

  lemma Relative(path: string, root: string)
    ensures RelativeComponents(path, root).Some? <==> Comps(root) <= Comps(path)
    ensures RelativeComponents(path, root).Some? ==>
              && Comps(path) == Comps(root) + RelativeComponents(path, root).value
              && Normal(RelativeComponents(path, root).value)
  {
    PartsAreComps(path);
    PartsAreComps(root);
    SameStartIsPrefix(Comps(path), Comps(root));
    CompsNormal(path);
  }

  // ----- The two directions --------------------------------------------------------------------

  /** Exactly two slashes at the head, which normalising keeps. */
  predicate DoubleSlash(p: string)
  {
    |p| >= 2 && p[0] == '/' && p[1] == '/' && !(|p| >= 3 && p[2] == '/')
  }

  /** An absolute path under POSIX rules. A local text with a backslash, or with several slashes at
      its head, would be read by Windows rules, and the model does not cover those. */
  predicate PosixAbsolute(path: string)
  {
    var s := Strip(path);
    s != "" && s[0] == '/' && !(|s| >= 2 && s[1] == '/') && '\\' !in s
  }

  predicate Configured(localRoot: string, remoteRoot: string)
  {
    PosixAbsolute(localRoot) && PosixAbsolute(remoteRoot)
  }

  /** Both directions answer exactly for paths inside their root, by whole components, and what
      they answer can be mapped in turn. */
  lemma InsideByComponents(path: string, localRoot: string, remoteRoot: string)
    requires Configured(localRoot, remoteRoot) && PosixAbsolute(path)
    ensures var remote, local := LocalToRemote(path, localRoot, remoteRoot), RemoteToLocal(path, localRoot, remoteRoot);
            && (remote.Some? <==> Comps(localRoot) <= Comps(path))
            && (local.Some? <==> Comps(remoteRoot) <= Comps(path))
            && (remote.Some? ==> PosixAbsolute(remote.value))
            && (local.Some? ==> PosixAbsolute(local.value))
  {
    Inside(path, localRoot, remoteRoot);
    MappedText(path, localRoot, remoteRoot);
    Relative(path, localRoot);
    Relative(path, remoteRoot);
    CompsAreClear(path);
    CompsAreClear(localRoot);
    CompsAreClear(remoteRoot);
    if LocalToRemote(path, localRoot, remoteRoot).Some? {
      var there := Comps(remoteRoot) + RelativeComponents(path, localRoot).value;
      ClearSwap(Comps(localRoot), Comps(remoteRoot), RelativeComponents(path, localRoot).value);
      RenderedIsPosix(there);
      CompsAreClear(Render(there));
      CompsNormal(Render(there));
      RenderedIsPosix(Comps(Render(there)));
    }
    if RemoteToLocal(path, localRoot, remoteRoot).Some? {
      ClearSwap(Comps(remoteRoot), Comps(localRoot), RelativeComponents(path, remoteRoot).value);
      RenderedIsPosix(Comps(localRoot) + RelativeComponents(path, remoteRoot).value);
    }
  }

  predicate Clear(cs: Components)
  {
    forall k :: 0 <= k < |cs| ==> '\\' !in cs[k]
  }

  lemma ClearSwap(a: Components, b: Components, rel: Components)
    requires Clear(a + rel) && Clear(b)
    ensures Clear(b + rel)
  {
    assert forall k :: 0 <= k < |rel| ==> rel[k] == (a + rel)[|a| + k];
  }

  lemma {:induction false} SplitIsClear(s: string)
    requires '\\' !in s
    ensures Clear(Split(s))
  {
    if s != "" {
      assert forall c :: c in s[1..] ==> c in s;
      SplitIsClear(s[1..]);
    }
  }

  lemma {:induction false} ResolveIsClear(parts: Components)
    requires Clear(parts)
    ensures Clear(Resolve(parts))
  {
    if parts != [] {
      ResolveIsClear(parts[..|parts| - 1]);
    }
  }

  lemma CompsAreClear(path: string)
    requires '\\' !in Strip(path)
    ensures Clear(Comps(path))
  {
    SplitIsClear(Strip(path));
    ResolveIsClear(Split(Strip(path)));
  }

  lemma {:induction false} SlashedIsClear(cs: Components)
    requires Clear(cs)
    ensures '\\' !in Slashed(cs)
  {
    if cs != [] {
      assert Clear(cs[1..]);
      SlashedIsClear(cs[1..]);
    }
  }

  lemma {:induction false} StripKeeps(s: string)
    ensures forall c :: c in Strip(s) ==> c in s
    decreases |s|
  {
    if s != "" && IsSpace(s[0]) { StripKeeps(s[1..]); }
    else if s != "" && IsSpace(s[|s| - 1]) { StripKeeps(s[..|s| - 1]); }
  }

  lemma {:induction false} StripKeepsHead(s: string)
    requires s != "" && !IsSpace(s[0])
    ensures Strip(s) != "" && Strip(s) <= s
    decreases |s|
  {
    if IsSpace(s[|s| - 1]) {
      StripKeepsHead(s[..|s| - 1]);
    }
  }

  lemma RenderedHead(cs: Components)
    requires Normal(cs)
    ensures Render(cs)[0] == '/' && (cs != [] ==> |Render(cs)| >= 2 && Render(cs)[1] == cs[0][0] != '/')
  {
    if cs != [] {
      JoinIsSlashed(cs);
      assert Slashed(cs) == ("/" + cs[0]) + Slashed(cs[1..]);
      assert cs[0][0] in cs[0];
    }
  }

  lemma RenderedIsPosix(cs: Components)
    requires Normal(cs) && Clear(cs)
    ensures PosixAbsolute(Render(cs)) && '\\' !in Strip(Render(cs))
  {
    RenderedHead(cs);
    RenderIsSlashed(cs);
    SlashedIsClear(cs);
    StripKeeps(Render(cs));
    StripKeepsHead(Render(cs));
  }

  lemma Inside(path: string, localRoot: string, remoteRoot: string)
    requires Configured(localRoot, remoteRoot)
    ensures LocalToRemote(path, localRoot, remoteRoot).Some? <==> Comps(localRoot) <= Comps(path)
    ensures RemoteToLocal(path, localRoot, remoteRoot).Some? <==> Comps(remoteRoot) <= Comps(path)
  {
    Relative(path, localRoot);
    Relative(path, remoteRoot);
  }

  /** What the two directions compute, for a path `components` below the root. */
  lemma MappedText(path: string, localRoot: string, remoteRoot: string)
    requires Configured(localRoot, remoteRoot)
    ensures LocalToRemote(path, localRoot, remoteRoot).Some? ==>
              var there := Comps(remoteRoot) + RelativeComponents(path, localRoot).value;
              && Normal(there)
              && LocalToRemote(path, localRoot, remoteRoot).value
                 == if there == Comps(remoteRoot) then Render(there) else NormPath(Strip(Render(there)))
    ensures RemoteToLocal(path, localRoot, remoteRoot).Some? ==>
              var there := Comps(localRoot) + RelativeComponents(path, remoteRoot).value;
              Normal(there) && RemoteToLocal(path, localRoot, remoteRoot).value == Render(there)
  {
    CompsNormal(remoteRoot);
    CompsNormal(localRoot);
    Relative(path, localRoot);
    Relative(path, remoteRoot);
    if RelativeComponents(path, localRoot).Some? {
      var components := RelativeComponents(path, localRoot).value;
      assert Comps(remoteRoot) + [] == Comps(remoteRoot);
      if components != [] {
        JoinedBase(Comps(remoteRoot), components);
        assert |Comps(remoteRoot) + components| > |Comps(remoteRoot)|;
      }
    }
    if RelativeComponents(path, remoteRoot).Some? {
      JoinedPath(Comps(localRoot), RelativeComponents(path, remoteRoot).value);
    }
  }

  lemma RemoteReadsBack(there: Components, root: Components, remote: string)
    requires Normal(there) && root <= there
    requires remote == if there == root then Render(there) else NormPath(Strip(Render(there)))
    ensures Comps(remote) == there <==> Tidy(there)
  {
    ReadBack(there);
    CompsNormal(Render(there));
    if there != root {
      if Tidy(there) {
        assert remote == Render(there);
      } else {
        StripEnds(remote);
        NormPathShortens(Strip(remote));
        CompsNormal(remote);
        RenderIsSlashed(Comps(remote));
        RenderIsSlashed(Comps(Render(there)));
      }
    }
  }

  /** Going to the local side gives the text of `rel` below the local root exactly for a path
      that is `rel` below the remote root. */
  lemma ToLocalExactly(remote: string, localRoot: string, remoteRoot: string, rel: Components)
    requires Configured(localRoot, remoteRoot) && Normal(rel)
    ensures RemoteToLocal(remote, localRoot, remoteRoot) == Some(Render(Comps(localRoot) + rel))
       <==> Comps(remote) == Comps(remoteRoot) + rel
  {
    var lc, rc := Comps(localRoot), Comps(remoteRoot);
    Inside(remote, localRoot, remoteRoot);
    Relative(remote, remoteRoot);
    MappedText(remote, localRoot, remoteRoot);
    CompsNormal(localRoot);
    if RemoteToLocal(remote, localRoot, remoteRoot) == Some(Render(lc + rel)) {
      var other := RelativeComponents(remote, remoteRoot).value;
      RenderInjective(lc + other, lc + rel);
      assert other == (lc + other)[|lc|..] && rel == (lc + rel)[|lc|..];
    }
    if Comps(remote) == rc + rel {
      assert rel == (rc + rel)[|rc|..];
    }
  }

  /** From a local path inside its root and back: the normalised local path, exactly when the
      remote path does not end in a blank, which reading it would strip. */
  lemma LocalRoundTrip(path: string, localRoot: string, remoteRoot: string)
    requires PosixAbsolute(path)
    requires Configured(localRoot, remoteRoot) && Comps(localRoot) <= Comps(path)
    ensures var remote := LocalToRemote(path, localRoot, remoteRoot);
            && remote.Some?
            && (RemoteToLocal(remote.value, localRoot, remoteRoot) == Some(NormPath(Strip(path)))
                <==> Tidy(Comps(remoteRoot) + Comps(path)[|Comps(localRoot)|..]))
  {
    Inside(path, localRoot, remoteRoot);
    Relative(path, localRoot);
    MappedText(path, localRoot, remoteRoot);
    CompsNormal(path);
    var rel := RelativeComponents(path, localRoot).value;
    assert rel == Comps(path)[|Comps(localRoot)|..];
    var remote := LocalToRemote(path, localRoot, remoteRoot).value;
    RemoteReadsBack(Comps(remoteRoot) + rel, Comps(remoteRoot), remote);
    ToLocalExactly(remote, localRoot, remoteRoot, rel);
  }

  /** A local path that reads back shorter does not lead back to where it came from. */
  lemma ShorterGoesElsewhere(local: string, localRoot: string, remoteRoot: string, rel: Components)
    requires Configured(localRoot, remoteRoot) && Normal(rel)
    requires |Slashed(Comps(local))| < |Slashed(Comps(localRoot) + rel)|
    ensures LocalToRemote(local, localRoot, remoteRoot) != Some(Render(Comps(remoteRoot) + rel))
  {
    var lc, rc := Comps(localRoot), Comps(remoteRoot);
    Inside(local, localRoot, remoteRoot);
    if lc <= Comps(local) {
      Relative(local, localRoot);
      MappedText(local, localRoot, remoteRoot);
      var other := RelativeComponents(local, localRoot).value;
      SlashedAppend(lc, other);
      SlashedAppend(lc, rel);
      SlashedAppend(rc, other);
      SlashedAppend(rc, rel);
      RenderIsSlashed(rc + other);
      RenderIsSlashed(rc + rel);
      CompsNormal(remoteRoot);
      if rc + other != rc {
        StripEnds(Render(rc + other));
        NormPathShortens(Strip(Render(rc + other)));
      } else if Render(rc + other) == Render(rc + rel) {
        RenderInjective(rc + other, rc + rel);
      }
    }
  }

  /** The other way round, with the same condition on the local path. */
  lemma RemoteRoundTrip(path: string, localRoot: string, remoteRoot: string)
    requires PosixAbsolute(path)
    requires Configured(localRoot, remoteRoot) && Comps(remoteRoot) <= Comps(path)
    ensures var local := RemoteToLocal(path, localRoot, remoteRoot);
            && local.Some?
            && (LocalToRemote(local.value, localRoot, remoteRoot) == Some(NormPath(Strip(path)))
                <==> Tidy(Comps(localRoot) + Comps(path)[|Comps(remoteRoot)|..]))
  {
    var lc, rc := Comps(localRoot), Comps(remoteRoot);
    Inside(path, localRoot, remoteRoot);
    Relative(path, remoteRoot);
    MappedText(path, localRoot, remoteRoot);
    CompsNormal(path);
    var rel := RelativeComponents(path, remoteRoot).value;
    assert rel == Comps(path)[|rc|..];
    var local := Render(lc + rel);
    ReadBack(lc + rel);
    if Tidy(lc + rel) {
      ReachesRemote(local, localRoot, remoteRoot, rel);
    } else {
      ShorterGoesElsewhere(local, localRoot, remoteRoot, rel);
    }
  }

  lemma ReachesRemote(local: string, localRoot: string, remoteRoot: string, rel: Components)
    requires Configured(localRoot, remoteRoot) && Normal(rel)
    requires Comps(local) == Comps(localRoot) + rel && Tidy(Comps(localRoot) + rel)
    ensures LocalToRemote(local, localRoot, remoteRoot) == Some(Render(Comps(remoteRoot) + rel))
  {
    var lc, rc := Comps(localRoot), Comps(remoteRoot);
    Inside(local, localRoot, remoteRoot);
    Relative(local, localRoot);
    MappedText(local, localRoot, remoteRoot);
    assert rel == (lc + rel)[|lc|..];
    assert RelativeComponents(local, localRoot).value == (lc + RelativeComponents(local, localRoot).value)[|lc|..];
    if rc + rel != rc {
      assert rel != [] && Tidy(rc + rel);
      ReadBack(rc + rel);
      CompsNormal(Render(rc + rel));
    }
  }

  // ----- Untidy paths exist --------------------------------------------------------------------

  lemma {:induction false} SplitWithSlash(cs: Components)
    requires Normal(cs) && cs != []
    ensures Split(Slashed(cs) + "/") == [""] + cs + [""]
  {
    var c, rest := cs[0], cs[1..];
    HeadTail(cs);
    var after := Slashed(rest) + "/";
    Assoc("/" + c, Slashed(rest), "/");
    Assoc("/", c, after);
    SplitAfterSlash(c + after);
    if rest == [] {
      SplitAt(c, "");
      assert after == "/" + "";
    } else {
      SplitWithSlash(rest);
      var inner := after[1..];
      assert Slashed(rest) == "/" + (rest[0] + Slashed(rest[1..]));
      assert after == "/" + inner;
      SplitAfterSlash(inner);
      SplitAt(c, inner);
      TakeAppend([""], Split(inner));
      Assoc([""], rest, [""]);
      TakeAppend([""], rest + [""]);
      assert Split(inner) == rest + [""];
    }
  }

  /** Any components, also those that end in a blank, are what some path stands for: a slash at
      its end protects the blank. */
  lemma SlashProtects(cs: Components)
    requires Normal(cs) && Clear(cs)
    ensures PosixAbsolute(Render(cs) + "/") || cs == []
    ensures cs != [] ==> Comps(Render(cs) + "/") == cs
  {
    if cs != [] {
      var path := Render(cs) + "/";
      RenderedHead(cs);
      JoinIsSlashed(cs);
      SlashedIsClear(cs);
      StripPlain(path);
      SplitWithSlash(cs);
      var parts := [""] + cs + [""];
      assert parts[..|parts| - 1] == [""] + cs;
      ResolveNormal(cs);
    }
  }

  /** So both round trips do fail: below any roots there is a directory whose name ends in a
      blank, and neither its local nor its remote path comes back. */
  lemma BlankIsLost(localRoot: string, remoteRoot: string)
    requires Configured(localRoot, remoteRoot)
    ensures var rel := ["b "];
            var local, remote := Render(Comps(localRoot) + rel) + "/", Render(Comps(remoteRoot) + rel) + "/";
            var there, here := LocalToRemote(local, localRoot, remoteRoot), RemoteToLocal(remote, localRoot, remoteRoot);
            && PosixAbsolute(local) && PosixAbsolute(remote) && there.Some? && here.Some?
            && RemoteToLocal(there.value, localRoot, remoteRoot) != Some(NormPath(Strip(local)))
            && LocalToRemote(here.value, localRoot, remoteRoot) != Some(NormPath(Strip(remote)))
  {
    var rel, lc, rc := ["b "], Comps(localRoot), Comps(remoteRoot);
    CompsNormal(localRoot);
    CompsNormal(remoteRoot);
    CompsAreClear(localRoot);
    CompsAreClear(remoteRoot);
    SlashProtects(lc + rel);
    SlashProtects(rc + rel);
    assert (lc + rel)[|lc|..] == rel && (rc + rel)[|rc|..] == rel;
    LocalRoundTrip(Render(lc + rel) + "/", localRoot, remoteRoot);
    RemoteRoundTrip(Render(rc + rel) + "/", localRoot, remoteRoot);
  }

  // ----- What normalising does, part by part ---------------------------------------------------

  lemma {:induction false} SplitJoined(a: string, b: string)
    ensures Split(a + ("/" + b)) == Split(a) + Split(b)
  {
    if a == "" {
      Whole("/" + b);
      SplitAfterSlash(b);
    } else {
      SplitJoined(a[1..], b);
      HeadTail(a);
      Assoc([a[0]], a[1..], "/" + b);
      if a[0] == '/' {
        SplitAfterSlash(a[1..] + ("/" + b));
        SplitAfterSlash(a[1..]);
        Assoc([""], Split(a[1..]), Split(b));
      } else {
        SplitLetter(a[0], a[1..] + ("/" + b));
        SplitLetter(a[0], a[1..]);
        FirstOfTwo(Split(a[1..]), Split(b));
        Assoc([[a[0]] + Split(a[1..])[0]], Split(a[1..])[1..], Split(b));
      }
    }
  }

  lemma FirstOfTwo(a: Components, b: Components)
    requires a != []
    ensures (a + b)[0] == a[0] && (a + b)[1..] == a[1..] + b
  {
  }

  /** The components of a path with one more part. */
  lemma OnePartMore(p: string, part: string)
    requires '/' !in part
    ensures var cs, longer := Resolve(Split(p)), Resolve(Split(p + ("/" + part)));
            && (part == "" || part == "." ==> longer == cs)
            && (part == ".." ==> longer == if cs == [] then [] else cs[..|cs| - 1])
            && (part != "" && part != "." && part != ".." ==> longer == cs + [part])
  {
    SplitJoined(p, part);
    SplitAt(part, "");
    var parts := Split(p) + [part];
    assert parts[..|parts| - 1] == Split(p);
  }

  lemma {:induction false} JoinOneMore(cs: Components, c: string)
    requires Normal(cs) && Normal([c])
    ensures Render(cs + [c]) == WithoutSlash(Render(cs)) + ("/" + c)
  {
    WithoutItsSlash(cs);
    RenderIsSlashed(cs + [c]);
    SlashedAppend(cs, [c]);
    assert Slashed([c]) == "/" + c + Slashed([]);
    Whole("/" + c);
  }

  /** Normalising by the laws it is to obey: empty parts and "." change nothing, a name is appended,
      ".." takes back the name before it, and above the root there is nothing. Every absolute path
      is made of such parts. */
  lemma NormalisingLaws(p: string, c: string)
    requires Normal([c])
    ensures NormPath("/") == "/" && NormPath("/..") == "/"
    ensures NormPath(p + ("/" + "")) == NormPath(p) == NormPath(p + ("/" + "."))
    ensures NormPath(p + ("/" + c)) == WithoutSlash(NormPath(p)) + ("/" + c)
    ensures NormPath(p + ("/" + c) + ("/" + "..")) == NormPath(p)
    ensures NormPath(p) == "/" ==> NormPath(p + ("/" + "..")) == "/"
  {
    var cs := Resolve(Split(p));
    assert [c][0] == c;
    SplitHasNoSlash(p);
    ResolveIsNormal(Split(p));
    OnePartMore(p, "");
    OnePartMore(p, ".");
    OnePartMore(p, "..");
    OnePartMore(p, c);
    OnePartMore(p + ("/" + c), "..");
    JoinOneMore(cs, c);
    TakeAppend(cs, [c]);
    RootOnly();
    if NormPath(p) == "/" {
      RenderInjective(cs, []);
    }
  }

  lemma RootOnly()
    ensures NormPath("/") == "/" && NormPath("/..") == "/" && Render([]) == "/"
  {
    OnePartMore("", "");
    OnePartMore("", "..");
    assert "" + ("/" + "") == "/" && "" + ("/" + "..") == "/..";
    assert Resolve(Split("")) == [] by { assert [""][..0] == []; assert Resolve([]) == []; }
  }

  lemma ClimbedComponents(cs: Components, d: string, e: string)
    requires Normal(cs + [d]) && Clear(cs + [d]) && Tidy(cs + [d])
    requires Normal([e]) && Clear([e]) && Tidy([e])
    ensures var path := Render(cs + [d]) + ("/" + "..") + ("/" + e);
            Strip(path) == path && path[0] == '/' != path[1] && '\\' !in path && Comps(path) == cs + [e]
  {
    var root := Render(cs + [d]);
    var path := root + ("/" + "..") + ("/" + e);
    assert [e][0] == e && (cs + [d])[|cs|] == d;
    RenderedHead(cs + [d]);
    ReadBack(cs + [d]);
    PlainEnd(root + ("/" + ".."), e);
    SlashedIsClear(cs + [d]);
    RenderIsSlashed(cs + [d]);
    StripPlain(path);
    ClimbedParts(cs, d, e, root);
  }

  lemma ClimbedParts(cs: Components, d: string, e: string, root: string)
    requires Resolve(Split(root)) == cs + [d] && Normal([e])
    ensures Resolve(Split(root + ("/" + "..") + ("/" + e))) == cs + [e]
  {
    assert [e][0] == e;
    OnePartMore(root, "..");
    OnePartMore(root + ("/" + ".."), e);
    TakeAppend(cs, [d]);
  }

  /** A path that climbs out of a root is inside it only if it comes back in. */
  lemma ClimbingOut(cs: Components, d: string, e: string, other: string)
    requires Normal(cs + [d]) && Clear(cs + [d]) && Tidy(cs + [d])
    requires Normal([e]) && Clear([e]) && Tidy([e]) && PosixAbsolute(other)
    ensures var root := Render(cs + [d]);
            var path := root + ("/" + "..") + ("/" + e);
            && PosixAbsolute(root) && PosixAbsolute(path)
            && (LocalToRemote(path, root, other).Some? <==> d == e)
            && (RemoteToLocal(path, other, root).Some? <==> d == e)
  {
    var root := Render(cs + [d]);
    var path := root + ("/" + "..") + ("/" + e);
    RenderedIsPosix(cs + [d]);
    ReadBack(cs + [d]);
    ClimbedComponents(cs, d, e);
    OneApart(cs, d, e);
    InsideByComponents(path, root, other);
    InsideByComponents(path, other, root);
  }

  lemma PlainEnd(before: string, e: string)
    requires e != ""
    ensures var s := before + ("/" + e); s[|s| - 1] == e[|e| - 1]
  {
  }

  lemma OneApart(cs: Components, d: string, e: string)
    ensures cs + [d] <= cs + [e] <==> d == e
  {
    assert (cs + [d])[|cs|] == d && (cs + [e])[|cs|] == e;
  }

  /** What the mapping answers, in texts: the path below the one root is put below the other. */
  lemma MapsBelow(lc: Components, rc: Components, rel: Components)
    requires Normal(lc + rel) && Normal(rc + rel) && Clear(lc + rel) && Clear(rc + rel)
    requires Tidy(lc) && Tidy(rc) && Tidy(rel)
    ensures var local, remote := Slashed(lc) + Slashed(rel), Slashed(rc) + Slashed(rel);
            var here, there := if local == "" then "/" else local, if remote == "" then "/" else remote;
            && LocalToRemote(here, Render(lc), Render(rc)) == Some(there)
            && RemoteToLocal(there, Render(lc), Render(rc)) == Some(here)
  {
    BothNormal(lc, rel);
    BothNormal(rc, rel);
    SlashedAppend(lc, rel);
    SlashedAppend(rc, rel);
    RenderIsSlashed(lc + rel);
    RenderIsSlashed(rc + rel);
    SlashedEmpty(lc + rel);
    SlashedEmpty(rc + rel);
    TidyAppend(lc, rel);
    TidyAppend(rc, rel);
    ReadBack(lc);
    ReadBack(rc);
    ReadBack(lc + rel);
    ReadBack(rc + rel);
    RenderedIsPosix(lc);
    RenderedIsPosix(rc);
    ReachesRemote(Render(lc + rel), Render(lc), Render(rc), rel);
    ToLocalExactly(Render(rc + rel), Render(lc), Render(rc), rel);
  }

  lemma BothNormal(a: Components, b: Components)
    requires Normal(a + b) && Clear(a + b)
    ensures Normal(a) && Normal(b) && Clear(a)
  {
    assert forall k :: 0 <= k < |a| ==> a[k] == (a + b)[k];
    assert forall k :: 0 <= k < |b| ==> b[k] == (a + b)[|a| + k];
  }

  lemma SlashedEmpty(cs: Components)
    ensures Slashed(cs) == "" <==> cs == []
  {
  }

  lemma TidyAppend(a: Components, b: Components)
    requires Tidy(a) && Tidy(b)
    ensures Tidy(a + b)
  {
    if b == [] { Whole(a); }
  }

  /** Without both roots nothing is mapped. */
  lemma NoRoots(path: string, localRoot: string, remoteRoot: string)
    ensures AllBlank(localRoot) || AllBlank(remoteRoot) ==>
              LocalToRemote(path, localRoot, remoteRoot) == None == RemoteToLocal(path, localRoot, remoteRoot)
  {
    if AllBlank(localRoot) { StripBlank(localRoot); }
    if AllBlank(remoteRoot) { StripBlank(remoteRoot); }
  }
}
