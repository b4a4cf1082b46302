/** Node's `path.posix` functions that `validatePath` uses: `normalize`, `join` and
    `relative`. A path is split at '/' into segments; `normalizeString`'s character loop is
    the stack fold `Push`/`ResolveFrom` over those segments. */
module PosixPath {
  import opened Js

  predicate IsAbsolute(p: string)
  {
    |p| > 0 && p[0] == '/'
  }

  /** `p.split('/')` */
  function Split(p: string): (r: seq<string>)
    ensures |r| >= 1
    ensures forall i :: 0 <= i < |r| ==> '/' !in r[i]
    decreases |p|
  {
    if |p| == 0 then [""]
    else if p[0] == '/' then [""] + Split(p[1..])
    else
      var t := Split(p[1..]);
      [[p[0]] + t[0]] + t[1..]
  }

  /** `segs.join('/')` */
  function JoinSegments(segs: seq<string>): string
  {
    if |segs| == 0 then ""
    else if |segs| == 1 then segs[0]
    else segs[0] + "/" + JoinSegments(segs[1..])
  }

  /** A segment that names a directory entry: not empty, not "." or "..", and free of '/'. */
  predicate Proper(seg: string)
  {
    seg != "" && seg != "." && seg != ".." && '/' !in seg
  }

  predicate AllProper(segs: seq<string>)
  {
    forall i :: 0 <= i < |segs| ==> Proper(segs[i])
  }

  /** One step of `normalizeString`: empty and "." segments vanish, ".." cancels the segment
      before it, and a ".." with nothing to cancel is kept only when the path may climb above
      its start (a relative path). */
  function Push(stack: seq<string>, seg: string, allowAboveRoot: bool): seq<string>
  {
    if seg == "" || seg == "." then stack
    else if seg == ".." then
      if |stack| > 0 && stack[|stack| - 1] != ".." then stack[..|stack| - 1]
      else if allowAboveRoot then stack + [".."]
      else stack
    else stack + [seg]
  }

  function ResolveFrom(stack: seq<string>, segs: seq<string>, allowAboveRoot: bool): (r: seq<string>)
    ensures |r| <= |stack| + |segs|
    decreases |segs|
  {
    if |segs| == 0 then stack
    else ResolveFrom(Push(stack, segs[0], allowAboveRoot), segs[1..], allowAboveRoot)
  }

  /** `path.normalize(p)` */
  function Normalize(p: string): (r: string)
    ensures r != ""
    ensures IsAbsolute(r) <==> IsAbsolute(p)
  {
    if |p| == 0 then "."
    else
      var isAbsolute := p[0] == '/';
      var trailingSeparator := p[|p| - 1] == '/';
      var body := JoinSegments(ResolveFrom([], Split(p), !isAbsolute));
      if |body| == 0 then
        (if isAbsolute then "/" else if trailingSeparator then "./" else ".")
      else if isAbsolute then
        "/" + body + (if trailingSeparator then "/" else "")
      else
        (assert body[0] != '/' by { ResolveClean([], Split(p), true); NoLeadingSlash(ResolveFrom([], Split(p), true)); }
         body + (if trailingSeparator then "/" else ""))
  }

  /** `path.join(a, b)`: the non-empty arguments joined with '/', then normalised. */
  function Join(a: string, b: string): (r: string)
    ensures IsAbsolute(a) ==> IsAbsolute(r)
  {
    var joined := if a == "" then b else if b == "" then a else a + "/" + b;
    Normalize(joined)
  }

  /** The segments an absolute path denotes once `path.resolve` has normalised it. */
  function Components(p: string): (r: seq<string>)
    requires IsAbsolute(p)
    ensures AllProper(r)
  {
    ResolveAbsoluteProper([], Split(p));
    ResolveFrom([], Split(p), false)
  }

  /** The length of the longest common prefix of two segment sequences. */
  function CommonPrefix(a: seq<string>, b: seq<string>): (k: nat)
    ensures k <= |a| && k <= |b|
    ensures a[..k] == b[..k]
    ensures k == |a| || k == |b| || a[k] != b[k]
  {
    if |a| == 0 || |b| == 0 || a[0] != b[0] then 0
    else
      var k := CommonPrefix(a[1..], b[1..]);
      assert a[..k + 1] == [a[0]] + a[1..][..k];
      assert b[..k + 1] == [b[0]] + b[1..][..k];
      k + 1
  }

  function Ups(n: nat): (r: seq<string>)
    ensures |r| == n && forall i :: 0 <= i < n ==> r[i] == ".."
  {
    if n == 0 then [] else [".."] + Ups(n - 1)
  }

  /** `path.relative(from, to)` for absolute arguments (the only kind `validatePath` passes):
      one ".." for every segment of `from` below the common prefix, then the rest of `to`. */
  function Relative(from: string, to: string): (r: string)
    requires IsAbsolute(from) && IsAbsolute(to)
    ensures r == "" <==> Components(from) == Components(to)
  {
    var f := Components(from);
    var t := Components(to);
    if f == t then ""
    else
      var k := CommonPrefix(f, t);
      var x := Ups(|f| - k) + t[k..];
      assert |f| - k == 0 ==> k < |t| && x[0] == t[k];
      JoinEmpty(x);
      JoinSegments(x)
  }

  /** `t` lies strictly below `root`: `root` is a proper prefix of it. */
  predicate StrictlyUnder(t: seq<string>, root: seq<string>)
  {
    |root| < |t| && t[..|root|] == root
  }

  // ---------------------------------------------------------------------------------------
  // Lemmas

  /** Every segment is non-empty and free of '/'. */
  predicate Clean(segs: seq<string>)
  {
    forall i :: 0 <= i < |segs| ==> segs[i] != "" && '/' !in segs[i]
  }

  lemma {:induction false} ResolveClean(stack: seq<string>, segs: seq<string>, allowAboveRoot: bool)
    requires Clean(stack)
    requires forall i :: 0 <= i < |segs| ==> '/' !in segs[i]
    ensures Clean(ResolveFrom(stack, segs, allowAboveRoot))
    decreases |segs|
  {
    if |segs| > 0 {
      ResolveClean(Push(stack, segs[0], allowAboveRoot), segs[1..], allowAboveRoot);
    }
  }

  lemma NoLeadingSlash(segs: seq<string>)
    requires Clean(segs)
    ensures JoinSegments(segs) == "" || JoinSegments(segs)[0] != '/'
  {
    if |segs| > 1 {
      assert JoinSegments(segs)[0] == segs[0][0];
    }
  }

  lemma {:induction false} NoTrailingSlash(segs: seq<string>)
    requires |segs| > 0 && Clean(segs)
    ensures JoinSegments(segs) != "" && JoinSegments(segs)[|JoinSegments(segs)| - 1] != '/'
    decreases |segs|
  {
    if |segs| > 1 {
      NoTrailingSlash(segs[1..]);
    }
  }

  /** The first two characters of a joined path come from its first segment. */
  lemma {:induction false} JoinStartsWithDots(segs: seq<string>)
    requires |segs| > 0 && '/' !in segs[0]
    ensures StartsWith(JoinSegments(segs), "..") <==> StartsWith(segs[0], "..")
  {
    if |segs| > 1 {
      var rest := "/" + JoinSegments(segs[1..]);
      assert JoinSegments(segs) == segs[0] + rest;
      if |segs[0]| >= 2 {
        assert (segs[0] + rest)[..2] == segs[0][..2];
      } else if |segs[0]| == 1 {
        assert (segs[0] + rest)[1] == '/';
      } else {
        assert (segs[0] + rest)[0] == '/';
      }
    }
  }

  lemma {:induction false} JoinEmpty(segs: seq<string>)
    requires |segs| > 0 && segs[0] != ""
    ensures JoinSegments(segs) != ""
  {
  }

  /** One step changes only the top of the stack: it pushes one segment, pops one for "..",
      or leaves the stack as it is. */
  lemma PushShape(stack: seq<string>, seg: string, allowAboveRoot: bool)
    ensures var r := Push(stack, seg, allowAboveRoot);
      && |stack| - 1 <= |r| <= |stack| + 1
      && (|r| >= |stack| ==> r[..|stack|] == stack)
      && (|r| < |stack| ==> r == stack[..|r|] && seg == "..")
  {
  }

  lemma {:induction false} PushProper(stack: seq<string>, seg: string)
    requires AllProper(stack) && '/' !in seg
    ensures AllProper(Push(stack, seg, false))
  {
  }

  /** Resolving an absolute path never yields an empty, "." or ".." segment. */
  lemma {:induction false} ResolveAbsoluteProper(stack: seq<string>, segs: seq<string>)
    requires AllProper(stack)
    requires forall i :: 0 <= i < |segs| ==> '/' !in segs[i]
    ensures AllProper(ResolveFrom(stack, segs, false))
    decreases |segs|
  {
    if |segs| > 0 {
      PushProper(stack, segs[0]);
      ResolveAbsoluteProper(Push(stack, segs[0], false), segs[1..]);
    }
  }

  /** Proper segments are pushed unchanged. */
  lemma {:induction false} ResolveProper(stack: seq<string>, segs: seq<string>, allowAboveRoot: bool)
    requires AllProper(segs)
    ensures ResolveFrom(stack, segs, allowAboveRoot) == stack + segs
    decreases |segs|
  {
    if |segs| > 0 {
      ResolveProper(stack + [segs[0]], segs[1..], allowAboveRoot);
      assert stack + [segs[0]] + segs[1..] == stack + segs;
    }
  }

  lemma {:induction false} ResolveAppend(stack: seq<string>, a: seq<string>, b: seq<string>, allowAboveRoot: bool)
    ensures ResolveFrom(stack, a + b, allowAboveRoot) == ResolveFrom(ResolveFrom(stack, a, allowAboveRoot), b, allowAboveRoot)
    decreases |a|
  {
    if |a| == 0 {
      assert a + b == b;
    } else {
      assert (a + b)[0] == a[0];
      assert (a + b)[1..] == a[1..] + b;
      ResolveAppend(Push(stack, a[0], allowAboveRoot), a[1..], b, allowAboveRoot);
    }
  }

  lemma {:induction false} SplitAppend(a: string, b: string)
    ensures Split(a + "/" + b) == Split(a) + Split(b)
    decreases |a|
  {
    if |a| == 0 {
      assert a + "/" + b == "/" + b;
      assert ("/" + b)[1..] == b;
    } else {
      assert (a + "/" + b)[0] == a[0];
      assert (a + "/" + b)[1..] == a[1..] + "/" + b;
      SplitAppend(a[1..], b);
    }
  }

  lemma {:induction false} SplitNoSlash(s: string)
    requires '/' !in s
    ensures Split(s) == [s]
    decreases |s|
  {
    if |s| > 0 {
      SplitNoSlash(s[1..]);
      assert [s[0]] + s[1..] == s;
    }
  }

  /** Splitting a joined sequence of slash-free segments gives the segments back. */
  lemma {:induction false} SplitJoin(segs: seq<string>)
    requires |segs| > 0
    requires forall i :: 0 <= i < |segs| ==> '/' !in segs[i]
    ensures Split(JoinSegments(segs)) == segs
    decreases |segs|
  {
    if |segs| == 1 {
      SplitNoSlash(segs[0]);
    } else {
      SplitAppend(segs[0], JoinSegments(segs[1..]));
      SplitNoSlash(segs[0]);
      SplitJoin(segs[1..]);
    }
  }

  lemma {:induction false} JoinAppendOne(segs: seq<string>, x: string)
    requires |segs| > 0
    ensures JoinSegments(segs + [x]) == JoinSegments(segs) + "/" + x
    decreases |segs|
  {
    if |segs| == 1 {
      assert segs + [x] == [segs[0], x];
    } else {
      assert (segs + [x])[1..] == segs[1..] + [x];
      JoinAppendOne(segs[1..], x);
    }
  }

  /** The normal form of an absolute path: '/' followed by its components, with a trailing
      '/' kept when the input had one. Normalising that again changes nothing. */
  lemma NormalizeAbsolute(p: string)
    requires IsAbsolute(p)
    ensures var c := Components(p);
      Normalize(p) == if c == [] then "/" else "/" + JoinSegments(c) + (if p[|p| - 1] == '/' then "/" else "")
  {
    var c := Components(p);
    if c != [] {
      assert c[0] != "";
      JoinEmpty(c);
    }
  }

  /** The root directory is its own normal form and has no components. */
  lemma {:induction false} RootNormal()
    ensures Components("/") == [] && Normalize("/") == "/"
  {
    assert Split("/") == ["", ""] by { assert "/"[1..] == ""; }
    assert ResolveFrom([], ["", ""], false) == ResolveFrom([], [""], false) == [];
  }

  /** The slash-joined form of proper components (with an optional trailing '/') splits back
      into them, framed by the empty segments of its separators. */
  lemma {:induction false} SplitNormalForm(c: seq<string>, trailing: bool)
    requires c != [] && AllProper(c)
    ensures var n := "/" + JoinSegments(c) + (if trailing then "/" else "");
      Split(n) == [""] + c + (if trailing then [""] else [])
  {
    var segs := [""] + c + (if trailing then [""] else []);
    var n := "/" + JoinSegments(c) + (if trailing then "/" else "");
    assert forall i :: 0 <= i < |segs| ==> '/' !in segs[i];
    if trailing {
      JoinAppendOne([""] + c, "");
      assert JoinSegments([""] + c) == "/" + JoinSegments(c);
    } else {
      assert segs[1..] == c;
    }
    assert n == JoinSegments(segs);
    SplitJoin(segs);
  }

  /** The slash-joined form of proper components denotes exactly those components, and ends
      in '/' exactly when the trailing separator was written. */
  lemma {:induction false} NormalFormComponents(c: seq<string>, trailing: bool)
    requires c != [] && AllProper(c)
    ensures var n := "/" + JoinSegments(c) + (if trailing then "/" else "");
      IsAbsolute(n) && Components(n) == c && (n[|n| - 1] == '/' <==> trailing)
  {
    var n := "/" + JoinSegments(c) + (if trailing then "/" else "");
    var tail := if trailing then [""] else [];
    SplitNormalForm(c, trailing);
    assert [""] + c + tail == [""] + (c + tail);
    ResolveAppend([], [""], c + tail, false);
    assert ResolveFrom([], [""], false) == [];
    ResolveAppend([], c, tail, false);
    ResolveProper([], c, false);
    assert ResolveFrom(c, tail, false) == c;
    NoTrailingSlash(c);
  }

  lemma {:induction false} NormalizeIdempotent(p: string)
    requires IsAbsolute(p)
    ensures Components(Normalize(p)) == Components(p)
    ensures Normalize(Normalize(p)) == Normalize(p)
  {
    var c := Components(p);
    NormalizeAbsolute(p);
    if c == [] {
      RootNormal();
    } else {
      var trailing := p[|p| - 1] == '/';
      NormalFormComponents(c, trailing);
      NormalizeAbsolute(Normalize(p));
    }
  }

  /** The main containment fact: `relative(from, to)` is non-empty and does not start with
      ".." exactly when `to` lies strictly below `from` and the first segment below `from`
      does not itself start with "..". */
  lemma {:induction false} RelativeInside(from: string, to: string)
    requires IsAbsolute(from) && IsAbsolute(to)
    ensures var f, t := Components(from), Components(to);
      var rel := Relative(from, to);
      (rel != "" && !StartsWith(rel, "..")) <==>
        (StrictlyUnder(t, f) && !StartsWith(t[|f|], ".."))
  {
    var f, t := Components(from), Components(to);
    var rel := Relative(from, to);
    if f != t {
      var k := CommonPrefix(f, t);
      var x := Ups(|f| - k) + t[k..];
      assert rel == JoinSegments(x);
      if |f| - k > 0 {
        assert x[0] == "..";
        JoinStartsWithDots(x);
        assert !StrictlyUnder(t, f);
      } else {
        assert k == |f|;
        assert t[..|f|] == f;
        if |t| != |f| {
          assert x == t[|f|..] && x[0] == t[|f|];
          JoinStartsWithDots(x);
          JoinEmpty(x);
        }
      }
    }
  }
}
