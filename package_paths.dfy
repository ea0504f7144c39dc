/**
 * Part names inside the workbook's zip package (Open Packaging Conventions, ISO/IEC 29500-2):
 * POSIX `dirname`, `basename`, `join` and `normpath`, and the two derived operations the
 * package inspector uses, resolving a relationship target against the part that declares it
 * and locating a part's `_rels/<name>.rels` relationships part.
 */
module PackagePaths {
  import opened Text

  /** The position just after the last `/` of `p`, or 0 when there is none (`p.rfind('/') + 1`). */
  function AfterLastSlash(p: string): (i: nat)
    ensures i <= |p|
    ensures i > 0 ==> p[i - 1] == '/'
    ensures forall k :: i <= k < |p| ==> p[k] != '/'
    decreases |p|
  {
    if p == [] then 0 else if p[|p| - 1] == '/' then |p| else AfterLastSlash(p[..|p| - 1])
  }

  predicate AllSlashes(s: string) {
    forall k :: 0 <= k < |s| ==> s[k] == '/'
  }

  /** `posixpath.dirname(p)`: everything before the last `/`, trailing slashes dropped unless only slashes remain. */
  function Dirname(p: string): string {
    var head := p[..AfterLastSlash(p)];
    if head != [] && !AllSlashes(head) then RStripChar(head, '/') else head
  }

  /** `posixpath.basename(p)`: everything after the last `/`. */
  function Basename(p: string): (r: string)
    ensures '/' !in r
  {
    p[AfterLastSlash(p)..]
  }

  /** `posixpath.join(a, b)`. */
  function JoinPath(a: string, b: string): string {
    if "/" <= b then b
    else if a == [] || EndsWith(a, "/") then a + b
    else a + "/" + b
  }

  // ---------------------------------------------------------------------------
  // posixpath.normpath

  /** `'/' * k`. */
  function Slashes(k: nat): (r: string)
    ensures |r| == k && AllSlashes(r)
  {
    seq(k, _ => '/')
  }

  /** The number of leading slashes `normpath` keeps: two exactly when the path starts with exactly two. */
  function InitialSlashes(path: string): (k: nat)
    ensures k <= 2
  {
    if "/" <= path then (if "//" <= path && !("///" <= path) then 2 else 1) else 0
  }

  /** One step of `normpath`'s loop over the components: skip, push, or pop on `..`. */
  function NormStep(stack: seq<string>, comp: string, rooted: bool): seq<string> {
    if comp == "" || comp == "." then stack
    else if comp != ".." || (!rooted && stack == []) || (stack != [] && stack[|stack| - 1] == "..") then stack + [comp]
    else if stack != [] then stack[..|stack| - 1]
    else stack
  }

  function NormSegments(stack: seq<string>, comps: seq<string>, rooted: bool): seq<string>
    decreases |comps|
  {
    if comps == [] then stack else NormSegments(NormStep(stack, comps[0], rooted), comps[1..], rooted)
  }

  /** `'/'.join(segs)`. */
  function JoinSegments(segs: seq<string>): string {
    if segs == [] then [] else Join(segs, '/')
  }

  /** `posixpath.normpath(path)`. */
  function NormPath(path: string): (r: string)
    ensures r != []
  {
    if path == [] then "."
    else
      var initial := InitialSlashes(path);
      var segs := NormSegments([], Split(path, '/'), initial > 0);
      var joined := Slashes(initial) + JoinSegments(segs);
      if joined == [] then "." else joined
  }

  /**
   * The shape of `normpath`'s component list: no empty or `.` components, no `/` inside one,
   * and `..` only in a leading run of a relative path.
   */
  predicate IsNormalSegments(segs: seq<string>, rooted: bool) {
    && (forall i :: 0 <= i < |segs| ==> segs[i] != "" && segs[i] != "." && '/' !in segs[i])
    && (forall i :: 0 <= i < |segs| && segs[i] == ".." ==> !rooted && forall j :: 0 <= j < i ==> segs[j] == "..")
  }

  lemma NormStepKeepsNormal(stack: seq<string>, comp: string, rooted: bool)
    requires IsNormalSegments(stack, rooted) && '/' !in comp
    ensures IsNormalSegments(NormStep(stack, comp, rooted), rooted)
  {
    var next := NormStep(stack, comp, rooted);
    if comp == ".." && stack != [] && stack[|stack| - 1] == ".." {
      assert next == stack + [comp];
      assert forall j :: 0 <= j < |stack| ==> stack[j] == "..";
    } else if comp == ".." && stack != [] && !(!rooted && stack == []) {
      assert next == stack[..|stack| - 1];
    }
  }

  /** Every component list `normpath` builds has the normal shape. */
  lemma {:induction false} NormSegmentsNormal(stack: seq<string>, comps: seq<string>, rooted: bool)
    requires IsNormalSegments(stack, rooted)
    requires forall i :: 0 <= i < |comps| ==> '/' !in comps[i]
    ensures IsNormalSegments(NormSegments(stack, comps, rooted), rooted)
    decreases |comps|
  {
    if comps != [] {
      NormStepKeepsNormal(stack, comps[0], rooted);
      NormSegmentsNormal(NormStep(stack, comps[0], rooted), comps[1..], rooted);
    }
  }

  /** A component list that already has the normal shape is left as it is. */
  lemma {:induction false} NormSegmentsFixedPoint(stack: seq<string>, comps: seq<string>, rooted: bool)
    requires IsNormalSegments(stack + comps, rooted)
    ensures NormSegments(stack, comps, rooted) == stack + comps
    decreases |comps|
  {
    if comps != [] {
      var c := comps[0];
      var all := stack + comps;
      assert all[|stack|] == c;
      assert c != "" && c != ".";
      if c == ".." {
        assert !rooted;
        if stack != [] {
          assert stack[|stack| - 1] == all[|stack| - 1] == "..";
        }
      }
      assert NormStep(stack, c, rooted) == stack + [c];
      assert (stack + [c]) + comps[1..] == all;
      NormSegmentsFixedPoint(stack + [c], comps[1..], rooted);
    }
  }

  /** Leading empty components (from leading slashes) are skipped. */
  lemma {:induction false} NormSegmentsSkipsEmpty(k: nat, comps: seq<string>, rooted: bool)
    ensures NormSegments([], seq(k, _ => "") + comps, rooted) == NormSegments([], comps, rooted)
    decreases k
  {
    if k > 0 {
      var all := seq(k, _ => "") + comps;
      assert all[0] == "";
      assert all[1..] == seq(k - 1, _ => "") + comps;
      NormSegmentsSkipsEmpty(k - 1, comps, rooted);
    } else {
      assert seq(k, _ => "") + comps == comps;
    }
  }

  /** `k` leading slashes split off as `k` empty components. */
  lemma {:induction false} SplitLeadingSlashes(k: nat, s: string)
    ensures Split(Slashes(k) + s, '/') == seq(k, _ => "") + Split(s, '/')
    decreases k
  {
    if k > 0 {
      assert Slashes(k) + s == [] + ['/'] + (Slashes(k - 1) + s);
      SplitAtFirst([], '/', Slashes(k - 1) + s);
      SplitLeadingSlashes(k - 1, s);
      assert seq(k, _ => "") == [""] + seq(k - 1, _ => "");
    } else {
      assert Slashes(k) + s == s;
    }
  }

  /** Splitting a path written from normal components gives the components back. */
  lemma SplitJoinSegments(segs: seq<string>)
    requires |segs| > 0 && forall i :: 0 <= i < |segs| ==> '/' !in segs[i]
    ensures Split(JoinSegments(segs), '/') == segs
  {
    SplitJoin(segs, '/');
  }

  /** A joined list of non-empty components does not start with `/`. */
  lemma {:induction false} JoinSegmentsStart(segs: seq<string>)
    requires |segs| > 0 && segs[0] != [] && '/' !in segs[0]
    ensures |JoinSegments(segs)| > 0 && JoinSegments(segs)[0] == segs[0][0] && JoinSegments(segs)[0] != '/'
  {
    if |segs| > 1 {
      assert Join(segs, '/') == segs[0] + ['/'] + Join(segs[1..], '/');
    }
  }

  /** `normpath` is idempotent: a normalised part name normalises to itself. */
  lemma NormPathIdempotent(path: string)
    ensures NormPath(NormPath(path)) == NormPath(path)
  {
    var r := NormPath(path);
    if path == [] {
      NormPathOfDot();
    } else {
      var initial := InitialSlashes(path);
      var rooted := initial > 0;
      var segs := NormSegments([], Split(path, '/'), rooted);
      NormSegmentsNormal([], Split(path, '/'), rooted);
      var joined := Slashes(initial) + JoinSegments(segs);
      if joined == [] {
        NormPathOfDot();
      } else {
        assert r == joined;
        NormPathOfNormal(initial, segs);
      }
    }
  }

  lemma NormPathOfDot()
    ensures NormPath(".") == "."
  {
    SplitWithoutSeparator(".", '/');
    assert Split(".", '/') == ["."];
    assert NormSegments([], ["."], false) == NormSegments([], [], false) == [];
  }

  /** The text `normpath` writes for `initial` slashes and normal components is its own normal form. */
  lemma NormPathOfNormal(initial: nat, segs: seq<string>)
    requires initial <= 2 && IsNormalSegments(segs, initial > 0)
    requires Slashes(initial) + JoinSegments(segs) != []
    ensures NormPath(Slashes(initial) + JoinSegments(segs)) == Slashes(initial) + JoinSegments(segs)
  {
    var rooted := initial > 0;
    var joined := Slashes(initial) + JoinSegments(segs);
    // the leading slashes are recovered exactly
    if segs != [] {
      JoinSegmentsStart(segs);
      assert joined[initial] != '/';
    }
    assert joined[..initial] == Slashes(initial);
    assert InitialSlashes(joined) == initial by {
      if initial == 0 {
        assert joined[0] != '/';
      } else if initial == 1 {
        assert "/" <= joined;
        assert |joined| > 1 ==> joined[1] != '/';
      } else {
        assert "//" <= joined;
        assert |joined| > 2 ==> joined[2] != '/';
      }
    }
    // the components are recovered exactly
    SplitLeadingSlashes(initial, JoinSegments(segs));
    if segs == [] {
      assert Split(JoinSegments(segs), '/') == [""];
      assert seq(initial, _ => "") + [""] == seq(initial + 1, _ => "") + [];
      NormSegmentsSkipsEmpty(initial + 1, [], rooted);
    } else {
      SplitJoinSegments(segs);
      NormSegmentsSkipsEmpty(initial, segs, rooted);
      assert [] + segs == segs;
      NormSegmentsFixedPoint([], segs, rooted);
    }
  }

  // ---------------------------------------------------------------------------
  // Relationship targets and relationships parts.

  /**
   * `_resolve_zip_target(base_part, target)`: an absolute target (leading `/`) names a part
   * from the package root; a relative one is joined to the directory of the part that
   * declares it and normalised.
   */
  function ResolveZipTarget(basePart: string, target: string): (r: string)
    ensures "/" <= target ==> r == LStripChar(target, '/') && (r == [] || r[0] != '/')
  {
    if "/" <= target then LStripChar(target, '/')
    else NormPath(JoinPath(Dirname(basePart), target))
  }

  /** A relative target resolves to a part name that `normpath` leaves as it is. */
  lemma ResolveZipTargetIsNormal(basePart: string, target: string)
    requires !("/" <= target)
    ensures NormPath(ResolveZipTarget(basePart, target)) == ResolveZipTarget(basePart, target)
  {
    NormPathIdempotent(JoinPath(Dirname(basePart), target));
  }

  /** `_rels_part_for(part)`: `<dir>/_rels/<name>.rels`. */
  function RelsPartFor(part: string): string {
    JoinPath(JoinPath(Dirname(part), "_rels"), Basename(part) + ".rels")
  }

  /** The directory and the file name of `dir/name`, for a directory that does not end in `/`. */
  lemma DirnameOfChild(dir: string, name: string)
    requires dir != [] && dir[|dir| - 1] != '/' && '/' !in name
    ensures Dirname(dir + "/" + name) == dir
    ensures Basename(dir + "/" + name) == name
  {
    var p := dir + "/" + name;
    assert AfterLastSlash(p) == |dir| + 1 by {
      assert p[|dir|] == '/';
      assert forall k :: |dir| + 1 <= k < |p| ==> p[k] == name[k - |dir| - 1];
      AfterLastSlashExact(p, |dir| + 1);
    }
    assert p[..|dir| + 1] == dir + "/";
    assert !AllSlashes(dir + "/") by { assert (dir + "/")[|dir| - 1] == dir[|dir| - 1]; }
    assert RStripChar(dir + "/", '/') == RStripChar(dir, '/') == dir by {
      assert (dir + "/")[..|dir|] == dir;
    }
  }

  /** `posixpath.join(dir, name)` for a directory that does not end in `/` and a relative name. */
  lemma JoinPathChild(dir: string, name: string)
    requires dir != [] && dir[|dir| - 1] != '/' && !("/" <= name)
    ensures JoinPath(dir, name) == dir + "/" + name
  {
    assert !EndsWith(dir, "/") by { assert dir[|dir| - 1..] == [dir[|dir| - 1]]; }
  }

  /** A part in a directory has its relationships in that directory's `_rels` folder. */
  lemma RelsPartInDirectory(dir: string, name: string)
    requires dir != [] && dir[|dir| - 1] != '/' && '/' !in name
    ensures RelsPartFor(dir + "/" + name) == dir + "/_rels/" + name + ".rels"
  {
    DirnameOfChild(dir, name);
    JoinPathChild(dir, "_rels");
    assert !("/" <= name + ".rels") by {
      if name != [] {
        assert name[0] in name && (name + ".rels")[0] == name[0];
      } else {
        assert (name + ".rels")[0] == '.';
      }
    }
    var d := dir + "/_rels";
    assert d[|d| - 1] == 's';
    JoinPathChild(d, name + ".rels");
  }

  /** A path component with no special meaning to `normpath`. */
  predicate IsPlainSegment(c: string) {
    c != "" && c != "." && c != ".." && '/' !in c
  }

  /** `a/b/../c/f` normalises its components to `a/c/f`. */
  lemma NormSegmentsClimb(a: string, b: string, c: string, f: string)
    requires IsPlainSegment(a) && IsPlainSegment(b) && IsPlainSegment(c) && IsPlainSegment(f)
    ensures NormSegments([], [a, b, "..", c, f], false) == [a, c, f]
  {
    var s4 := [f];
    assert NormStep([a, c], f, false) == [a, c] + [f] == [a, c, f];
    assert NormSegments([a, c], s4, false) == [a, c, f] by { assert s4[1..] == []; }
    var s3 := [c] + s4;
    assert NormStep([a], c, false) == [a, c];
    assert NormSegments([a], s3, false) == [a, c, f] by { assert s3[0] == c && s3[1..] == s4; }
    var s2 := [".."] + s3;
    assert NormStep([a, b], "..", false) == [a, b][..1] == [a];
    assert NormSegments([a, b], s2, false) == [a, c, f] by { assert s2[0] == ".." && s2[1..] == s3; }
    var s1 := [b] + s2;
    assert NormStep([a], b, false) == [a, b];
    assert NormSegments([a], s1, false) == [a, c, f] by { assert s1[0] == b && s1[1..] == s2; }
    var s0 := [a] + s1;
    assert NormStep([], a, false) == [a];
    assert NormSegments([], s0, false) == [a, c, f] by { assert s0[0] == a && s0[1..] == s1; }
    assert s0 == [a, b, "..", c, f];
  }

  /** `a/b/../c/f` is the `/`-join of its five components. */
  lemma JoinClimb(a: string, b: string, c: string, f: string)
    ensures a + "/" + b + "/" + ("../" + c + "/" + f) == Join([a, b, "..", c, f], '/')
  {
    var segs := [a, b, "..", c, f];
    assert Join(segs[4..], '/') == f;
    assert Join(segs[3..], '/') == c + "/" + f;
    assert Join(segs[2..], '/') == ".." + "/" + c + "/" + f;
    assert Join(segs[1..], '/') == b + "/" + ".." + "/" + c + "/" + f;
  }

  /** `normpath("a/b/../c/f")` is `"a/c/f"`. */
  lemma NormPathClimb(a: string, b: string, c: string, f: string)
    requires IsPlainSegment(a) && IsPlainSegment(b) && IsPlainSegment(c) && IsPlainSegment(f)
    ensures NormPath(Join([a, b, "..", c, f], '/')) == a + "/" + c + "/" + f
  {
    var segs := [a, b, "..", c, f];
    var joined := Join(segs, '/');
    assert joined == a + "/" + Join(segs[1..], '/');
    assert a[0] in a;
    assert joined[0] == a[0];
    assert InitialSlashes(joined) == 0;
    SplitJoin(segs, '/');
    NormSegmentsClimb(a, b, c, f);
    assert JoinSegments([a, c, f]) == a + "/" + c + "/" + f by {
      assert Join([a, c, f][1..], '/') == c + "/" + f;
    }
    assert Slashes(0) + JoinSegments([a, c, f]) == a + "/" + c + "/" + f;
  }

  /**
   * A relative target that climbs one level from the declaring part's directory lands in a
   * sibling directory: `a/b/x` with target `../c/f` names `a/c/f`
   * (`xl/worksheets/sheet1.xml` with `../drawings/drawing1.xml` names `xl/drawings/drawing1.xml`).
   */
  lemma ResolveSiblingTarget(a: string, b: string, x: string, c: string, f: string)
    requires IsPlainSegment(a) && IsPlainSegment(b) && IsPlainSegment(c) && IsPlainSegment(f)
    requires '/' !in x
    ensures ResolveZipTarget(a + "/" + b + "/" + x, "../" + c + "/" + f) == a + "/" + c + "/" + f
  {
    var dir := a + "/" + b;
    var target := "../" + c + "/" + f;
    assert a + "/" + b + "/" + x == dir + "/" + x;
    assert b[|b| - 1] in b;
    assert dir[|dir| - 1] == b[|b| - 1];
    DirnameOfChild(dir, x);
    assert !("/" <= target);
    JoinPathChild(dir, target);
    JoinClimb(a, b, c, f);
    NormPathClimb(a, b, c, f);
  }


  /** A part at the package root has its relationships in the root `_rels` folder. */
  lemma RelsPartAtRoot(name: string)
    requires '/' !in name
    ensures RelsPartFor(name) == "_rels/" + name + ".rels"
  {
    AfterLastSlashExact(name, 0);
    assert Basename(name) == name;
    assert !("/" <= name + ".rels") by {
      if name != [] {
        assert name[0] in name && (name + ".rels")[0] == name[0];
      } else {
        assert (name + ".rels")[0] == '.';
      }
    }
  }

  lemma AfterLastSlashExact(p: string, i: nat)
    requires i <= |p| && (i > 0 ==> p[i - 1] == '/') && forall k :: i <= k < |p| ==> p[k] != '/'
    ensures AfterLastSlash(p) == i
  {
    var j := AfterLastSlash(p);
    assert j <= i;  // p[j - 1] is a slash, so it lies before i
    assert j >= i;  // p[i - 1] is a slash, so the last one is not before it
  }
}
