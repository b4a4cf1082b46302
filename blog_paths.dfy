/** The slug resolver of `BlogService` (`contentPath` and `validatePath`): a requested slug is
    normalised, stripped of leading "../" and "..\" runs, joined under the content root with
    ".md" appended, and refused unless the result lies strictly inside the root. */
module BlogPaths {
  import opened Js
  import opened PosixPath
  import BlogSlugDto

  /** `join(process.cwd(), 'content', 'blog')`. Node's join concatenates all its arguments
      with '/' before one normalisation, which is what joining "content/blog" does. */
  function ContentPath(cwd: string): (r: string)
    requires IsAbsolute(cwd)
    ensures IsAbsolute(r)
  {
    Join(cwd, "content/blog")
  }

  /** `s` begins with what one repetition of `\.\.(\/|\\|$)` matches. */
  predicate StartsWithTraversal(s: string)
  {
    |s| >= 2 && s[0] == '.' && s[1] == '.' && (|s| == 2 || s[2] == '/' || s[2] == '\\')
  }

  /** `s.replace(/^(\.\.(\/|\\|$))+/, '')`: the anchored run of traversal steps is removed. */
  function StripTraversal(s: string): (r: string)
    ensures !StartsWithTraversal(r)
    ensures !StartsWithTraversal(s) <==> r == s
    decreases |s|
  {
    if StartsWithTraversal(s) then
      if |s| == 2 then "" else StripTraversal(s[3..])
    else s
  }

  /** The strip removes a prefix made only of '.', '/' and '\\'. */
  lemma {:induction false} StripTraversalCutsPrefix(s: string)
    ensures var r := StripTraversal(s);
      |r| <= |s| && r == s[|s| - |r|..] &&
      forall i :: 0 <= i < |s| - |r| ==> s[i] == '.' || s[i] == '/' || s[i] == '\\'
    decreases |s|
  {
    if StartsWithTraversal(s) && |s| > 2 {
      StripTraversalCutsPrefix(s[3..]);
      var r := StripTraversal(s);
      forall i | 3 <= i < |s| - |r| ensures s[i] == '.' || s[i] == '/' || s[i] == '\\' {
        assert s[i] == s[3..][i - 3];
      }
    }
  }

  /** `p` is a run of whole "../" or "..\\" steps (possibly none). */
  predicate StepRun(p: string)
    decreases |p|
  {
    p == "" || (|p| >= 3 && p[0] == '.' && p[1] == '.' && (p[2] == '/' || p[2] == '\\') && StepRun(p[3..]))
  }

  /** What the anchored pattern `^(\.\.(\/|\\|$))+` matches in `s` when it cuts the first `k`
      characters: whole steps, the last of which may be a bare ".." only at the end of `s`. */
  predicate TraversalCut(s: string, k: nat)
  {
    k <= |s| && (StepRun(s[..k]) || (k == |s| && k >= 2 && StepRun(s[..k - 2]) && s[k - 2..] == ".."))
  }

  /** The strip cuts exactly one run of whole traversal steps, and (since what is left does
      not start with another step) the longest one. */
  lemma {:induction false} StripTraversalCutsSteps(s: string)
    ensures exists k: nat :: TraversalCut(s, k) && StripTraversal(s) == s[k..]
    decreases |s|
  {
    if !StartsWithTraversal(s) {
      assert TraversalCut(s, 0) && StripTraversal(s) == s[0..] by {
        assert s[..0] == "";
      }
    } else if |s| == 2 {
      assert s[..0] == "" && s[0..] == "..";
      assert TraversalCut(s, 2) && StripTraversal(s) == s[2..];
    } else {
      var t := s[3..];
      StripTraversalCutsSteps(t);
      var k': nat :| TraversalCut(t, k') && StripTraversal(t) == t[k'..];
      var k := k' + 3;
      assert s[k..] == t[k'..];
      if StepRun(t[..k']) {
        assert s[..k][3..] == t[..k'];
        assert StepRun(s[..k]);
      } else {
        assert s[..k - 2][3..] == t[..k' - 2];
        assert StepRun(s[..k - 2]);
        assert s[k - 2..] == t[k' - 2..];
      }
      assert TraversalCut(s, k);
    }
  }

  /** Only whole steps are cut: a doubled separator keeps its second '/', a ".." glued to a
      name is kept, and mixed separators are all stripped. */
  lemma StripTraversalExamples()
    ensures StripTraversal("..//x") == "/x"
    ensures StripTraversal("..x") == "..x"
    ensures StripTraversal("../..\\a") == "a"
    ensures StripTraversal("../..") == ""
  {
    assert "..//x"[3..] == "/x";
    assert "../..\\a"[3..] == "..\\a" && "..\\a"[3..] == "a";
    assert "../.."[3..] == "..";
  }

  /** The file `validatePath` builds for a slug before it checks containment. */
  function CandidateFile(contentPath: string, slug: string): (r: string)
    requires IsAbsolute(contentPath)
    ensures IsAbsolute(r)
  {
    Join(contentPath, StripTraversal(Normalize(slug)) + ".md")
  }

  datatype Resolution = Resolved(path: string) | Invalid(message: string)

  const InvalidPathMessage := "Invalid blog post path"

  /** `validatePath(slug)`. The path it returns always lies strictly inside the content root;
      it is refused (NotFound, "Invalid blog post path") exactly when the candidate file is not
      strictly inside the root or the first segment below the root starts with "..". */
  function ValidatePath(contentPath: string, slug: string): (r: Resolution)
    requires IsAbsolute(contentPath)
    ensures r.Resolved? ==> r.path == CandidateFile(contentPath, slug)
    ensures r.Resolved? ==>
      IsAbsolute(r.path) && StrictlyUnder(Components(r.path), Components(contentPath))
    ensures var c, root := Components(CandidateFile(contentPath, slug)), Components(contentPath);
      r.Resolved? <==> StrictlyUnder(c, root) && !StartsWith(c[|root|], "..")
    ensures r.Invalid? ==> r.message == InvalidPathMessage
  {
    var filePath := CandidateFile(contentPath, slug);
    var relativePath := Relative(contentPath, filePath);
    RelativeInside(contentPath, filePath);
    if StartsWith(relativePath, "..") || relativePath == "" then Invalid(InvalidPathMessage)
    else Resolved(filePath)
  }

  // ---------------------------------------------------------------------------------------
  // What a slug resolves to

  lemma {:induction false} JoinSplit(s: string)
    ensures JoinSegments(Split(s)) == s
    decreases |s|
  {
    if |s| > 0 {
      JoinSplit(s[1..]);
      var t := Split(s[1..]);
      if s[0] == '/' {
        assert s == "/" + s[1..];
      } else {
        if |t| > 1 {
          assert ([[s[0]] + t[0]] + t[1..])[1..] == t[1..];
          assert JoinSegments(t) == t[0] + "/" + JoinSegments(t[1..]);
        }
        assert s == [s[0]] + s[1..];
      }
    }
  }

  lemma {:induction false} JoinConcat(a: seq<string>, b: seq<string>)
    requires |a| > 0 && |b| > 0
    ensures JoinSegments(a + b) == JoinSegments(a) + "/" + JoinSegments(b)
    decreases |a|
  {
    if |a| == 1 {
      assert (a + b)[1..] == b;
    } else {
      assert (a + b)[1..] == a[1..] + b;
      JoinConcat(a[1..], b);
    }
  }

  /** Joining a relative path under an absolute one resolves its segments on top of the
      absolute path's components. */
  lemma {:induction false} JoinComponents(base: string, rel: string)
    requires IsAbsolute(base) && rel != ""
    ensures Join(base, rel) == Normalize(base + "/" + rel)
    ensures Components(base + "/" + rel) == ResolveFrom(Components(base), Split(rel), false)
    ensures Components(Join(base, rel)) == ResolveFrom(Components(base), Split(rel), false)
  {
    var joined := base + "/" + rel;
    SplitAppend(base, rel);
    ResolveAppend([], Split(base), Split(rel), false);
    NormalizeIdempotent(joined);
  }

  lemma {:induction false} SplitTwo(a: string, b: string)
    requires '/' !in a && '/' !in b
    ensures Split(a + "/" + b) == [a, b]
  {
    SplitAppend(a, b);
    SplitNoSlash(a);
    SplitNoSlash(b);
  }

  /** Joining a relative path of proper segments under an absolute path appends the
      segments to its components, and the result is written in normal form. */
  lemma {:induction false} JoinProperSegments(base: string, rel: string)
    requires IsAbsolute(base) && rel != "" && AllProper(Split(rel))
    ensures Components(Join(base, rel)) == Components(base) + Split(rel)
    ensures Join(base, rel) == "/" + JoinSegments(Components(base) + Split(rel))
  {
    var joined := base + "/" + rel;
    var segs := Split(rel);
    JoinComponents(base, rel);
    ResolveProper(Components(base), segs, false);
    NormalizeAbsolute(joined);
    JoinSplit(rel);
    NoTrailingSlash(segs);
    assert joined[|joined| - 1] == rel[|rel| - 1];
  }

  /** Under a normal root, a relative path made of proper segments is simply appended. */
  lemma {:induction false} JoinProperUnder(base: string, rel: string)
    requires IsAbsolute(base) && Components(base) != []
    requires base == "/" + JoinSegments(Components(base))
    requires rel != "" && AllProper(Split(rel))
    ensures Components(Join(base, rel)) == Components(base) + Split(rel)
    ensures Join(base, rel) == base + "/" + rel
  {
    JoinProperSegments(base, rel);
    JoinSplit(rel);
    JoinConcat(Components(base), Split(rel));
  }

  lemma {:induction false} SplitContentBlog()
    ensures Split("content/blog") == ["content", "blog"]
  {
    assert "content/blog" == "content" + "/" + "blog";
    SplitTwo("content", "blog");
  }

  /** The content root is the working directory followed by "content" and "blog", written in
      normal form. */
  lemma {:induction false} ContentPathShape(cwd: string)
    requires IsAbsolute(cwd)
    ensures Components(ContentPath(cwd)) == Components(cwd) + ["content", "blog"]
    ensures ContentPath(cwd) == "/" + JoinSegments(Components(ContentPath(cwd)))
  {
    SplitContentBlog();
    JoinProperSegments(cwd, "content/blog");
  }

  /** Once the root is in normal form and the stripped slug (with ".md") is made of proper
      segments, the candidate file is the literal concatenation, and the decision rests on
      the first of those segments alone. */
  lemma {:induction false} ValidatePathProper(root: string, slug: string, rel: string)
    requires IsAbsolute(root) && Components(root) != []
    requires root == "/" + JoinSegments(Components(root))
    requires rel == StripTraversal(Normalize(slug)) + ".md" && AllProper(Split(rel))
    ensures ValidatePath(root, slug) ==
      if StartsWith(Split(rel)[0], "..") then Invalid(InvalidPathMessage) else Resolved(root + "/" + rel)
  {
    JoinProperUnder(root, rel);
    var c := Components(root) + Split(rel);
    assert c[|Components(root)|] == Split(rel)[0];
    assert StrictlyUnder(c, Components(root));
  }

  /** A single proper segment that does not start a traversal passes normalisation and the
      strip unchanged. */
  lemma {:induction false} PlainSegmentUnchanged(seg: string)
    requires Proper(seg) && !StartsWithTraversal(seg)
    ensures StripTraversal(Normalize(seg)) == seg
  {
    SplitNoSlash(seg);
    ResolveProper([], [seg], true);
    assert [] + [seg] == [seg];
    NormalizeRelativeFixed(seg);
  }

  lemma {:induction false} WithExtension(name: string)
    requires '/' !in name
    ensures Split(name + ".md") == [name + ".md"] && AllProper([name + ".md"])
  {
    var file := name + ".md";
    assert '/' !in file by {
      assert file[..|name|] == name && file[|name|..] == ".md";
      assert file == file[..|name|] + file[|name|..];
    }
    SplitNoSlash(file);
  }

  /** The file name a plain segment gets is one proper segment that does not start with "..". */
  lemma {:induction false} PlainSegmentFile(seg: string)
    requires Proper(seg) && seg[0] != '.'
    ensures var file := seg + ".md";
      file == StripTraversal(Normalize(seg)) + ".md" && Split(file) == [file] &&
      AllProper(Split(file)) && !StartsWith(file, "..")
  {
    var file := seg + ".md";
    PlainSegmentUnchanged(seg);
    WithExtension(seg);
    assert file[0] == seg[0];
  }

  /** A slug that passes `BlogSlugDto` reaches `validatePath` as a single plain segment, which
      it neither changes nor refuses: the file is `<root>/<slug>.md`. */
  lemma {:induction false} AcceptedSlugResolves(cwd: string, slug: string)
    requires IsAbsolute(cwd) && BlogSlugDto.Accepts(slug)
    ensures ValidatePath(ContentPath(cwd), slug) == Resolved(ContentPath(cwd) + "/" + slug + ".md")
  {
    var root := ContentPath(cwd);
    ContentPathShape(cwd);
    BlogSlugDto.AcceptedSlugIsPlainSegment(slug);
    PlainSegmentFile(slug);
    var file := slug + ".md";
    ValidatePathProper(root, slug, file);
    assert !StartsWith(Split(file)[0], "..");
    assert root + "/" + file == root + "/" + slug + ".md";
  }

  /** A slug that normalises to "." (the empty slug, ".") names the file "..md", which the
      literal `startsWith('..')` test refuses; so does a slug such as "..foo" whose file name
      starts with "..". */
  lemma {:induction false} DotSlugsRefused(cwd: string)
    requires IsAbsolute(cwd)
    ensures ValidatePath(ContentPath(cwd), "") == Invalid(InvalidPathMessage)
    ensures ValidatePath(ContentPath(cwd), ".") == Invalid(InvalidPathMessage)
    ensures ValidatePath(ContentPath(cwd), "..foo") == Invalid(InvalidPathMessage)
  {
    var root := ContentPath(cwd);
    ContentPathShape(cwd);
    assert Normalize("") == ".";
    assert Split(".") == ["."] by { SplitNoSlash("."); }
    assert Normalize(".") == ".";
    assert StripTraversal(".") == ".";
    WithExtension(".");
    ValidatePathProper(root, "", "." + ".md");
    ValidatePathProper(root, ".", "." + ".md");
    PlainSegmentUnchanged("..foo");
    WithExtension("..foo");
    ValidatePathProper(root, "..foo", "..foo" + ".md");
  }

  /** `n` copies of "../" */
  function Dots(n: nat): (r: string)
    ensures |r| == 3 * n
  {
    if n == 0 then "" else "../" + Dots(n - 1)
  }

  lemma {:induction false} DotsAppend(n: nat, rest: string)
    requires n > 0
    ensures Dots(n) + rest == "../" + (Dots(n - 1) + rest)
  {
  }

  /** A leading "../" splits off as one ".." segment. */
  lemma {:induction false} SplitUp(tail: string)
    ensures Split("../" + tail) == [".."] + Split(tail)
  {
    assert "../" + tail == ".." + "/" + tail;
    SplitAppend("..", tail);
    SplitNoSlash("..");
  }

  lemma {:induction false} SplitDotsStep(n: nat, rest: string)
    requires n > 0 && Split(Dots(n - 1) + rest) == Ups(n - 1) + Split(rest)
    ensures Split(Dots(n) + rest) == Ups(n) + Split(rest)
  {
    DotsAppend(n, rest);
    SplitUp(Dots(n - 1) + rest);
    assert [".."] + (Ups(n - 1) + Split(rest)) == ([".."] + Ups(n - 1)) + Split(rest);
  }

  lemma {:induction false} SplitDots(n: nat, rest: string)
    ensures Split(Dots(n) + rest) == Ups(n) + Split(rest)
  {
    if n > 0 {
      SplitDots(n - 1, rest);
      SplitDotsStep(n, rest);
    } else {
      assert Dots(0) + rest == rest;
      assert Ups(0) + Split(rest) == Split(rest);
    }
  }

  /** One "../" step in front of a path is stripped. */
  lemma StripOneStep(x: string)
    ensures StripTraversal("../" + x) == StripTraversal(x)
  {
    var s := "../" + x;
    assert s[0] == '.' && s[1] == '.' && s[2] == '/' && |s| != 2;
    assert s[3..] == x;
  }

  lemma {:induction false} StripDots(n: nat, rest: string)
    requires !StartsWithTraversal(rest)
    ensures StripTraversal(Dots(n) + rest) == rest
  {
    if n > 0 {
      DotsAppend(n, rest);
      StripOneStep(Dots(n - 1) + rest);
      StripDots(n - 1, rest);
    } else {
      assert Dots(n) + rest == rest;
    }
  }

  lemma {:induction false} PushUp(m: nat)
    ensures Push(Ups(m), "..", true) == Ups(m + 1)
  {
    assert Ups(m + 1) == [".."] + Ups(m);
    assert Ups(m) + [".."] == Ups(m + 1);
  }

  /** ".." segments pushed onto a stack of ".." segments stay put. */
  lemma {:induction false} ResolveUps(m: nat, n: nat)
    ensures ResolveFrom(Ups(m), Ups(n), true) == Ups(m + n)
    decreases n
  {
    if n > 0 {
      assert Ups(n)[0] == ".." && Ups(n)[1..] == Ups(n - 1);
      PushUp(m);
      ResolveUps(m + 1, n - 1);
      assert m + 1 + (n - 1) == m + n;
    }
  }

  /** Leading ".." segments of a relative path stay put, and proper segments follow them. */
  lemma {:induction false} ResolveUpsThenProper(m: nat, n: nat, segs: seq<string>)
    requires AllProper(segs)
    ensures ResolveFrom(Ups(m), Ups(n) + segs, true) == Ups(m + n) + segs
  {
    ResolveAppend(Ups(m), Ups(n), segs, true);
    ResolveUps(m, n);
    ResolveProper(Ups(m + n), segs, true);
  }

  /** `segs` with `t` appended to its last segment. */
  function ExtendLast(segs: seq<string>, t: string): seq<string>
    requires segs != []
  {
    segs[..|segs| - 1] + [segs[|segs| - 1] + t]
  }

  /** Extending the last segment commutes with growing the first one. */
  lemma {:induction false} ExtendLastCons(c: char, q: seq<string>, t: string)
    requires q != []
    ensures var u := ExtendLast(q, t);
      [[c] + u[0]] + u[1..] == ExtendLast([[c] + q[0]] + q[1..], t)
  {
    var u := ExtendLast(q, t);
    var p := [[c] + q[0]] + q[1..];
    if |q| == 1 {
      assert u == [q[0] + t];
      assert p == [[c] + q[0]];
      assert [c] + (q[0] + t) == [c] + q[0] + t;
    } else {
      assert u[0] == q[0];
      assert u[1..] == q[1..|q| - 1] + [q[|q| - 1] + t];
      assert p[..|p| - 1] == [[c] + q[0]] + q[1..|q| - 1];
    }
  }

  /** Extending the last segment commutes with adding an empty first one. */
  lemma {:induction false} ExtendLastEmpty(q: seq<string>, t: string)
    requires q != []
    ensures [""] + ExtendLast(q, t) == ExtendLast([""] + q, t)
  {
    var p := [""] + q;
    assert p[..|p| - 1] == [""] + q[..|q| - 1];
  }

  /** Text without '/' appended to a path lengthens its last segment. */
  lemma {:induction false} SplitAppendTail(s: string, t: string)
    requires '/' !in t
    ensures Split(s + t) == ExtendLast(Split(s), t)
    decreases |s|
  {
    if |s| == 0 {
      SplitNoSlash(t);
      assert s + t == t;
    } else {
      assert (s + t)[0] == s[0];
      assert (s + t)[1..] == s[1..] + t;
      SplitAppendTail(s[1..], t);
      if s[0] == '/' {
        ExtendLastEmpty(Split(s[1..]), t);
      } else {
        ExtendLastCons(s[0], Split(s[1..]), t);
      }
    }
  }

  /** A relative path that neither starts nor ends with '/' and whose segments the fold keeps
      as they are is its own normal form. */
  lemma {:induction false} NormalizeRelativeFixed(p: string)
    requires p != "" && p[0] != '/' && p[|p| - 1] != '/'
    requires ResolveFrom([], Split(p), true) == Split(p)
    ensures Normalize(p) == p
  {
    JoinSplit(p);
  }

  /** `n` "../" steps before a relative path of proper segments: the fold keeps every
      segment, and the path neither starts nor ends with '/'. */
  lemma {:induction false} DotsThenProperFixed(n: nat, segs: seq<string>)
    requires |segs| > 0 && AllProper(segs)
    ensures var slug := Dots(n) + JoinSegments(segs);
      slug != "" && slug[0] != '/' && slug[|slug| - 1] != '/' &&
      ResolveFrom([], Split(slug), true) == Split(slug)
  {
    var rest := JoinSegments(segs);
    var slug := Dots(n) + rest;
    SplitJoin(segs);
    SplitDots(n, rest);
    assert Ups(0) == [];
    ResolveUpsThenProper(0, n, segs);
    NoTrailingSlash(segs);
    assert slug[|slug| - 1] == rest[|rest| - 1];
    NoLeadingSlash(segs);
    if n == 0 {
      assert slug == rest;
    } else {
      assert slug[0] == '.';
    }
  }

  /** A relative path of proper segments after `n` "../" steps normalises to itself, and the
      strip then removes exactly the steps. */
  lemma {:induction false} LeadingDotsStripped(n: nat, segs: seq<string>)
    requires |segs| > 0 && AllProper(segs) && !StartsWith(segs[0], "..")
    ensures StripTraversal(Normalize(Dots(n) + JoinSegments(segs))) == JoinSegments(segs)
  {
    var rest := JoinSegments(segs);
    DotsThenProperFixed(n, segs);
    NormalizeRelativeFixed(Dots(n) + rest);
    assert !StartsWithTraversal(rest) by {
      JoinStartsWithDots(segs);
    }
    StripDots(n, rest);
  }

  /** Appending ".md" to a path of proper segments extends its last segment. */
  lemma {:induction false} ExtensionSegments(segs: seq<string>)
    requires |segs| > 0 && AllProper(segs) && !StartsWith(segs[0], "..")
    ensures var file := JoinSegments(segs) + ".md";
      AllProper(Split(file)) && !StartsWith(Split(file)[0], "..")
  {
    var file := JoinSegments(segs) + ".md";
    var last := segs[|segs| - 1];
    SplitJoin(segs);
    SplitAppendTail(JoinSegments(segs), ".md");
    assert Split(file) == segs[..|segs| - 1] + [last + ".md"];
    WithExtension(last);
    if |segs| == 1 {
      assert Split(file)[0] == segs[0] + ".md";
      if |segs[0]| >= 2 {
        assert (segs[0] + ".md")[..2] == segs[0][..2];
      } else {
        assert (segs[0] + ".md")[1] == '.';
        assert segs[0][0] != '.';
      }
    } else {
      assert Split(file)[0] == segs[0];
    }
  }

  /** A slug whose stripped normal form, with ".md", is a path of proper segments that does
      not start with "..", resolves to that path under a root in normal form. */
  lemma {:induction false} StrippedResolves(root: string, slug: string, rest: string)
    requires IsAbsolute(root) && Components(root) != []
    requires root == "/" + JoinSegments(Components(root))
    requires StripTraversal(Normalize(slug)) == rest
    requires AllProper(Split(rest + ".md")) && !StartsWith(Split(rest + ".md")[0], "..")
    ensures ValidatePath(root, slug) == Resolved(root + "/" + rest + ".md")
  {
    ValidatePathProper(root, slug, rest + ".md");
    assert root + "/" + (rest + ".md") == root + "/" + rest + ".md";
  }

  /** However many "../" steps a slug starts with, they are stripped, and the path that
      follows them, if it is made of proper segments, names a file inside the root. So
      `../../etc/passwd` is served, if at all, from `<root>/etc/passwd.md`. */
  lemma {:induction false} LeadingTraversalConfined(cwd: string, n: nat, segs: seq<string>)
    requires IsAbsolute(cwd)
    requires |segs| > 0 && AllProper(segs) && !StartsWith(segs[0], "..")
    ensures var rest := JoinSegments(segs);
      ValidatePath(ContentPath(cwd), Dots(n) + rest) == Resolved(ContentPath(cwd) + "/" + rest + ".md")
  {
    ContentPathShape(cwd);
    LeadingDotsStripped(n, segs);
    ExtensionSegments(segs);
    StrippedResolves(ContentPath(cwd), Dots(n) + JoinSegments(segs), JoinSegments(segs));
  }
}
