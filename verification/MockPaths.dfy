/** The path texts behind the in-memory file tree: what its component lists stand for, and the
    paths for which its loop over parent directories never ends. */
module MockPaths {
  import opened Blanks
  import opened Seqs
  import opened PathMapping
  import FileTree

  function Slashes(s: string): string
  {
    seq(|s|, k requires 0 <= k < |s| => if s[k] == '\\' then '/' else s[k])
  }

  /** `posixpath.normpath` of a path that starts with a slash. */
  function PosixNorm(p: string): string
  {
    (if DoubleSlash(p) then "/" else "") + NormPath(p)
  }

  function Norm(path: string): string
  {
    var stripped := Strip(Slashes(if path == "" then "/" else path));
    var value := if stripped == "" then "/" else stripped;
    PosixNorm(if value[0] == '/' then value else "/" + value)
  }

  /** Up to and with the last slash. */
  function Head(p: string): string
  {
    if p == "" || p[|p| - 1] == '/' then p else Head(p[..|p| - 1])
  }

  predicate AllSlashes(p: string)
  {
    forall k :: 0 <= k < |p| ==> p[k] == '/'
  }

  /** `posixpath.dirname`. */
  function Dirname(p: string): string
  {
    if AllSlashes(Head(p)) then Head(p) else WithoutSlash(Head(p))
  }

  function Ancestor(p: string, n: nat): string
  {
    if n == 0 then p else Dirname(Ancestor(p, n - 1))
  }

  function Upper(cs: Components, n: nat): (up: Components)
    ensures |up| == if n <= |cs| then |cs| - n else 0
  {
    if n == 0 then cs else FileTree.Parent(Upper(cs, n - 1))
  }

  // ----- Texts of components -------------------------------------------------------------------

  lemma {:induction false} HeadOf(before: string, name: string)
    requires '/' !in name && before != "" && before[|before| - 1] == '/'
    ensures Head(before + name) == before
    decreases |name|
  {
    if name == "" {
      assert before + name == before;
    } else {
      var init := name[..|name| - 1];
      var p := before + name;
      assert p[|p| - 1] == name[|name| - 1] && name[|name| - 1] in name;
      assert p[..|p| - 1] == before + init;
      assert forall c :: c in init ==> c in name;
      HeadOf(before, init);
    }
  }

  lemma SlashedLast(cs: Components)
    requires cs != []
    ensures Slashed(cs) == Slashed(FileTree.Parent(cs)) + "/" + cs[|cs| - 1]
  {
    var n := |cs| - 1;
    SlashedAppend(cs[..n], [cs[n]]);
    assert cs == cs[..n] + [cs[n]];
    assert Slashed([cs[n]]) == "/" + cs[n] + Slashed([]);
    Assoc(Slashed(cs[..n]), "/", cs[n]);
  }

  lemma ParentIsNormal(cs: Components)
    requires Normal(cs)
    ensures Normal(FileTree.Parent(cs))
  {
  }

  /** The directory of a text with components is the text of the parent, also behind a second
      slash. */
  lemma DirnameOf(extra: string, cs: Components)
    requires Normal(cs) && (extra == "" || extra == "/")
    ensures Dirname(extra + Render(cs)) == extra + Render(FileTree.Parent(cs))
  {
    var up := FileTree.Parent(cs);
    RenderIsSlashed(cs);
    RenderIsSlashed(up);
    if cs == [] {
      assert AllSlashes(extra + "/");
    } else {
      SlashedLast(cs);
      var all := extra + Slashed(up);
      Assoc(extra, Slashed(up) + "/", cs[|cs| - 1]);
      Assoc(extra, Slashed(up), "/");
      HeadOf(all + "/", cs[|cs| - 1]);
      if up == [] {
        assert AllSlashes(extra + "/");
        Whole(extra);
      } else {
        ParentIsNormal(cs);
        SlashedEnd(up);
        OneSlash(all);
      }
    }
  }

  lemma OneSlash(p: string)
    requires p != "" && p[|p| - 1] != '/'
    ensures !AllSlashes(p + "/") && WithoutSlash(p + "/") == p
  {
    assert (p + "/")[|p| - 1] != '/';
    TakeAppend(p, "/");
  }

  lemma {:induction false} AncestorOf(extra: string, cs: Components, n: nat)
    requires Normal(cs) && (extra == "" || extra == "/")
    ensures Normal(Upper(cs, n)) && Ancestor(extra + Render(cs), n) == extra + Render(Upper(cs, n))
  {
    if n > 0 {
      AncestorOf(extra, cs, n - 1);
      DirnameOf(extra, Upper(cs, n - 1));
      ParentIsNormal(Upper(cs, n - 1));
    }
  }

  lemma PosixNormShape(p: string) returns (extra: string, cs: Components)
    ensures Normal(cs) && (extra == "" || extra == "/") && PosixNorm(p) == extra + Render(cs)
    ensures extra == "/" <==> DoubleSlash(p)
  {
    extra := if DoubleSlash(p) then "/" else "";
    cs := Resolve(Split(p));
    SplitHasNoSlash(p);
    ResolveIsNormal(Split(p));
  }

  /** Two slashes at the head. */
  predicate TwoSlashes(p: string)
  {
    |p| >= 2 && p[0] == '/' && p[1] == '/'
  }

  lemma TwoSlashesShape(extra: string, cs: Components)
    requires Normal(cs) && (extra == "" || extra == "/")
    ensures TwoSlashes(extra + Render(cs)) <==> extra == "/"
  {
    RenderedHead(cs);
    if extra == "" {
      Whole(Render(cs));
      RenderIsSlashed(cs);
    } else {
      assert (extra + Render(cs))[1] == Render(cs)[0];
    }
  }

  /** What `_norm` gives: the text of normal components, or that with a second slash in front. */
  lemma NormShape(path: string) returns (extra: string, cs: Components)
    ensures Normal(cs) && (extra == "" || extra == "/") && Norm(path) == extra + Render(cs)
    ensures extra == "/" <==> TwoSlashes(Norm(path))
  {
    var stripped := Strip(Slashes(if path == "" then "/" else path));
    var value := if stripped == "" then "/" else stripped;
    extra, cs := PosixNormShape(if value[0] == '/' then value else "/" + value);
    TwoSlashesShape(extra, cs);
  }

  lemma SlashesAlone(p: string)
    requires '\\' !in p
    ensures Slashes(p) == p
  {
  }

  /** `_norm` of a clean absolute path is its normal form, as `NormalisingLaws` describes it; of the
      empty path it is the root. */
  lemma NormOfAbsolute(p: string)
    requires p != "" && p[0] == '/' && '\\' !in p && !IsSpace(p[|p| - 1])
    ensures Norm(p) == if DoubleSlash(p) then "/" + NormPath(p) else NormPath(p)
    ensures Norm("") == "/"
  {
    SlashesAlone(p);
    StripPlain(p);
    SlashesAlone("/");
    StripPlain("/");
    RootOnly();
    assert Norm("") == PosixNorm("/");
  }

  /** A missing slash at the head is added, backslashes count as slashes, and blanks at the ends do
      not count. */
  lemma NormOfOthers(p: string, other: string, before: string, after: string)
    requires p != "" && p[0] != '/' && '\\' !in p && !IsSpace(p[0]) && !IsSpace(p[|p| - 1])
    requires |other| == |p| && forall k :: 0 <= k < |p| ==> other[k] == p[k] || (p[k] == '/' && other[k] == '\\')
    requires AllBlank(before) && AllBlank(after)
    ensures Norm(p) == Norm("/" + p) == NormPath("/" + p)
    ensures Norm(other) == Norm(p)
    ensures Norm(before + p + after) == Norm(p)
  {
    SlashesAlone(p);
    SlashesAlone("/" + p);
    StripPlain(p);
    StripPlain("/" + p);
    assert Slashes(other) == p;
    var all := before + p + after;
    forall k | 0 <= k < |all| ensures all[k] != '\\' {
      assert k < |before| ==> all[k] == before[k];
      assert |before| <= k < |before| + |p| ==> all[k] == p[k - |before|] && p[k - |before|] in p;
      assert k >= |before| + |p| ==> all[k] == after[k - |before| - |p|];
    }
    SlashesAlone(all);
    StripBetween(before, p, after);
    assert !DoubleSlash("/" + p);
  }

  // ----- The loop over parent directories ------------------------------------------------------

  /** The root is a directory, and no directory starts with two slashes. */
  predicate RootedDirs(dirs: set<string>)
  {
    "/" in dirs && forall d :: d in dirs ==> !TwoSlashes(d)
  }

  /** The directories of a tree are such texts. */
  lemma TextsAreRooted(dirs: set<Components>)
    requires [] in dirs && forall cs :: cs in dirs ==> Normal(cs)
    ensures RootedDirs(set cs | cs in dirs :: Render(cs))
  {
    assert Render([]) == "/";
    forall cs | cs in dirs ensures !TwoSlashes(Render(cs)) {
      TwoSlashesShape("", cs);
      Whole(Render(cs));
    }
  }

  /** Going up from a path, the loop comes to its end. */
  ghost predicate ParentLoopEnds(path: string, dirs: set<string>)
  {
    exists n: nat :: Ancestor(Dirname(path), n) == "" || Ancestor(Dirname(path), n) in dirs
  }

  /** It ends exactly for paths whose normal form does not start with two slashes. */
  lemma ParentLoopEndsExactly(path: string, dirs: set<string>)
    requires RootedDirs(dirs)
    ensures ParentLoopEnds(Norm(path), dirs) <==> !TwoSlashes(Norm(path))
  {
    var extra, cs := NormShape(path);
    var up := FileTree.Parent(cs);
    DirnameOf(extra, cs);
    ParentIsNormal(cs);
    if extra == "" {
      AncestorOf(extra, up, |up|);
      assert Upper(up, |up|) == [];
      assert Ancestor(Dirname(Norm(path)), |up|) == "/";
    } else {
      forall n: nat ensures Ancestor(Dirname(Norm(path)), n) != "" && Ancestor(Dirname(Norm(path)), n) !in dirs {
        AncestorOf(extra, up, n);
        TwoSlashesShape(extra, Upper(up, n));
      }
    }
  }

  lemma SplitDouble(name: string)
    requires '/' !in name
    ensures Split("//" + name) == ["", "", name]
  {
    SplitAfterSlash("/" + name);
    SplitAfterSlash(name);
    SplitAt(name, "");
    assert "//" + name == "/" + ("/" + name);
  }

  lemma ResolveDouble(name: string)
    requires name != "" && name != "." && name != ".."
    ensures Resolve(["", "", name]) == [name]
  {
    assert ["", "", name][..2] == ["", ""] && ["", ""][..1] == [""] && [""][..0] == [];
    assert Resolve([""]) == [] && Resolve(["", ""]) == [];
  }

  /** There are such paths. */
  lemma DoubleSlashPath(name: string)
    requires name != "" && name != "." && name != ".." && '/' !in name && '\\' !in name && !IsSpace(name[|name| - 1])
    ensures Norm("//" + name) == "//" + name && TwoSlashes("//" + name)
  {
    var path := "//" + name;
    assert Slashes(path) == path;
    assert name[0] in name && path[2] == name[0];
    StripPlain(path);
    SplitDouble(name);
    ResolveDouble(name);
  }

  // ----- Below and beside ----------------------------------------------------------------------

  lemma OtherName(c: string, d: string, x: string, y: string)
    requires '/' !in c && '/' !in d && (y == "" || y[0] == '/') && |c| != |d|
    ensures !(c + ("/" + x) <= d + y)
  {
    var s, t := c + ("/" + x), d + y;
    if |c| < |d| {
      assert s[|c|] == '/' && t[|c|] == d[|c|] && d[|c|] in d;
    } else if y != "" {
      assert t[|d|] == y[0] && s[|d|] == c[|d|] && c[|d|] in c;
    }
  }

  lemma SameName(c: string, d: string, x: string, y: string)
    requires '/' !in c && '/' !in d && (y == "" || y[0] == '/') && c + ("/" + x) <= d + y
    ensures c == d
  {
    if |c| != |d| {
      OtherName(c, d, x, y);
    }
    assert (c + ("/" + x))[..|c|] == c && (d + y)[..|d|] == d;
  }

  lemma {:induction false} SlashedBelow(q: Components, p: Components)
    requires Normal(q) && Normal(p)
    ensures Slashed(q) + "/" <= Slashed(p) <==> q < p
  {
    if q == [] {
      assert Slashed(q) + "/" == "/";
      if p != [] { assert Slashed(p)[0] == '/'; }
    } else if p != [] {
      var x, y := Slashed(q[1..]), Slashed(p[1..]);
      SlashedBelow(q[1..], p[1..]);
      HeadTail(q);
      HeadTail(p);
      HeadsAgree(q[0], p[0], x, y);
    }
  }

  lemma HeadsAgree(c: string, d: string, x: string, y: string)
    requires '/' !in c && '/' !in d && (x == "" || x[0] == '/') && (y == "" || y[0] == '/')
    ensures ("/" + c + x) + "/" <= "/" + d + y <==> c == d && x + "/" <= y
  {
    var left, right := ("/" + c + x) + "/", "/" + d + y;
    var tail := x + "/";
    assert left == "/" + (c + tail) && right == "/" + (d + y);
    assert tail == "/" + tail[1..];
    if left <= right {
      assert c + tail == left[1..] && d + y == right[1..];
      assert c + tail <= d + y;
      SameName(c, d, tail[1..], y);
      assert tail == (c + tail)[|c|..] && y == (d + y)[|d|..];
    }
  }

  /** "Starts with the directory and a slash" is "a proper prefix of components". */
  lemma BelowByText(q: Components, p: Components)
    requires Normal(q) && Normal(p)
    ensures Render(p) != Render(q) && WithoutSlash(Render(q)) + "/" <= Render(p) <==> q < p
  {
    RenderIsSlashed(q);
    RenderIsSlashed(p);
    SlashedBelow(q, p);
    if q == [] {
      assert WithoutSlash("/") == WithoutSlash("/"[..0]) == "";
      if p != [] { RenderedHead(p); }
    } else {
      SlashedEnd(q);
    }
  }

  /** Where copying takes a member of a subtree: the text it composes is that of the image exactly
      if source and target are both the root or both not. */
  lemma ImageByText(src: Components, dst: Components, p: Components)
    requires Normal(src) && Normal(dst) && Normal(p) && src < p
    ensures |Render(src)| <= |Render(p)|
    ensures Render(dst) + Render(p)[|Render(src)|..] == Render(FileTree.Image(src, dst, p)) <==> (src == [] <==> dst == [])
    ensures src != [] && dst == [] ==> TwoSlashes(Render(dst) + Render(p)[|Render(src)|..])
  {
    var rel := p[|src|..];
    var image := FileTree.Image(src, dst, p);
    assert p == src + rel && image == dst + rel;
    SlashedAppend(src, rel);
    SlashedAppend(dst, rel);
    RenderIsSlashed(src);
    RenderIsSlashed(dst);
    RenderIsSlashed(p);
    RenderIsSlashed(image);
    assert Slashed(rel) != "";
    if src != [] {
      assert Render(p)[|Render(src)|..] == Slashed(rel);
      assert Slashed(rel)[0] == '/';
    }
  }
}
