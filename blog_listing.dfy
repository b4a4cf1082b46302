/** The blog index of `BlogService.getAllPosts`: the directory's ".md" files are read and
    parsed, each becomes a summary (or is skipped), drafts are filtered out, and the rest is
    sorted in place: pinned posts first, then newest first, with `Array.prototype.sort`'s
    stability keeping the input order of posts that compare equal. */
module BlogListing {
  import opened Js
  import BlogSlugDto

  /** What gray-matter extracts from a file: the YAML frontmatter and the markdown body. */
  datatype Matter = Matter(data: map<string, Value>, content: string)

  /** A directory entry; `contents` is None when reading the file throws. */
  datatype DirEntry = DirEntry(name: string, contents: Option<string>)

  /** The content directory as `existsSync` and `readdirSync` see it; `Unlistable` stands for
      a `readdirSync` that throws. */
  datatype ContentDir = Missing | Unlistable | Listed(entries: seq<DirEntry>)

  /** One element of the index. `slug`, `title`, `date`, `excerpt` and `author` are whatever
      the frontmatter held (the source does not check their types). */
  datatype Summary = Summary(
    slug: Value, title: Value, date: Value, excerpt: Value, author: Value,
    tags: seq<Value>, pinned: bool, draft: bool)

  const DefaultAuthor := "Jordan Cole Hunt"

  /** `data[key]`: undefined when the key is absent. */
  function Field(data: map<string, Value>, key: string): Value
  {
    if key in data then data[key] else Undefined
  }

  /** `Array.isArray(v) ? v : []` */
  function TagsOf(v: Value): (tags: seq<Value>)
    ensures v.Array? ==> tags == v.items
    ensures !v.Array? ==> tags == []
  {
    if v.Array? then v.items else []
  }

  /** The frontmatter has the two required fields. */
  predicate HasRequired(data: map<string, Value>)
  {
    Truthy(Field(data, "title")) && Truthy(Field(data, "date"))
  }

  /** The summary built for `filename` from its frontmatter, or None when a required field
      is falsy. */
  function ToSummary(filename: string, data: map<string, Value>): (r: Option<Summary>)
    ensures r.Some? <==> HasRequired(data)
    ensures r.Some? ==> Truthy(r.value.title) && Truthy(r.value.date) && Truthy(r.value.author)
    ensures r.Some? ==> (r.value.pinned <==> Field(data, "pinned") == Bool(true))
    ensures r.Some? ==> (r.value.draft <==> Field(data, "draft") == Bool(true))
    ensures r.Some? ==> r.value.title == Field(data, "title") && r.value.date == Field(data, "date")
    ensures r.Some? ==> r.value.tags == TagsOf(Field(data, "tags"))
    ensures r.Some? ==>
      r.value.slug == if Truthy(Field(data, "slug")) then Field(data, "slug") else Str(ReplaceFirst(filename, ".md", ""))
    ensures r.Some? ==>
      r.value.excerpt == if Truthy(Field(data, "excerpt")) then Field(data, "excerpt") else Str("")
    ensures r.Some? ==>
      r.value.author == if Truthy(Field(data, "author")) then Field(data, "author") else Str(DefaultAuthor)
  {
    if !HasRequired(data) then None
    else
      Some(Summary(
        Or(Field(data, "slug"), Str(ReplaceFirst(filename, ".md", ""))),
        Field(data, "title"),
        Field(data, "date"),
        Or(Field(data, "excerpt"), Str("")),
        Or(Field(data, "author"), Str(DefaultAuthor)),
        TagsOf(Field(data, "tags")),
        Field(data, "pinned") == Bool(true),
        Field(data, "draft") == Bool(true)))
  }

  /** The body of the `map` callback: read, parse, summarise; a read or parse that throws is
      caught and yields null (None). */
  function ReadSummary(e: DirEntry, parse: string -> Option<Matter>): (r: Option<Summary>)
    ensures r.Some? <==>
      e.contents.Some? && parse(e.contents.value).Some? && HasRequired(parse(e.contents.value).value.data)
    ensures r.Some? ==> r == ToSummary(e.name, parse(e.contents.value).value.data)
  {
    match e.contents
    case None => None
    case Some(text) =>
      match parse(text)
      case None => None
      case Some(m) => ToSummary(e.name, m.data)
  }

  /** `readdirSync(...).filter(f => f.endsWith('.md'))` */
  function MarkdownFiles(entries: seq<DirEntry>): (r: seq<DirEntry>)
    ensures |r| <= |entries|
    ensures forall e :: e in r <==> e in entries && EndsWith(e.name, ".md")
  {
    if entries == [] then []
    else if EndsWith(entries[0].name, ".md") then [entries[0]] + MarkdownFiles(entries[1..])
    else MarkdownFiles(entries[1..])
  }

  /** `files.map(...)` */
  function Loaded(files: seq<DirEntry>, parse: string -> Option<Matter>): (r: seq<Option<Summary>>)
    ensures |r| == |files|
    ensures forall i :: 0 <= i < |files| ==> r[i] == ReadSummary(files[i], parse)
  {
    seq(|files|, i requires 0 <= i < |files| => ReadSummary(files[i], parse))
  }

  /** `.filter(post => post !== null && post.draft !== true)` */
  function KeepPublished(os: seq<Option<Summary>>): (r: seq<Summary>)
    ensures |r| <= |os|
    ensures forall p :: p in r <==> Some(p) in os && !p.draft
  {
    if os == [] then []
    else
      var rest := KeepPublished(os[1..]);
      assert forall o :: o in os <==> o == os[0] || o in os[1..];
      if os[0].Some? && !os[0].value.draft then [os[0].value] + rest else rest
  }

  /** The posts that reach the sort, in directory order. */
  function Published(entries: seq<DirEntry>, parse: string -> Option<Matter>): (r: seq<Summary>)
    ensures |r| <= |entries|
    ensures forall i :: 0 <= i < |r| ==> !r[i].draft
  {
    KeepPublished(Loaded(MarkdownFiles(entries), parse))
  }

  lemma {:induction false} MarkdownFilesAppend(a: seq<DirEntry>, b: seq<DirEntry>)
    ensures MarkdownFiles(a + b) == MarkdownFiles(a) + MarkdownFiles(b)
    decreases |a|
  {
    if a == [] {
      assert a + b == b;
    } else {
      assert (a + b)[0] == a[0];
      assert (a + b)[1..] == a[1..] + b;
      MarkdownFilesAppend(a[1..], b);
    }
  }

  lemma {:induction false} LoadedAppend(a: seq<DirEntry>, b: seq<DirEntry>, parse: string -> Option<Matter>)
    ensures Loaded(a + b, parse) == Loaded(a, parse) + Loaded(b, parse)
  {
    var l := Loaded(a + b, parse);
    var r := Loaded(a, parse) + Loaded(b, parse);
    forall i | 0 <= i < |l| ensures l[i] == r[i] {
      if i < |a| {
        assert (a + b)[i] == a[i];
      } else {
        assert (a + b)[i] == b[i - |a|];
      }
    }
  }

  lemma {:induction false} KeepPublishedAppend(a: seq<Option<Summary>>, b: seq<Option<Summary>>)
    ensures KeepPublished(a + b) == KeepPublished(a) + KeepPublished(b)
    decreases |a|
  {
    if a == [] {
      assert a + b == b;
    } else {
      assert (a + b)[0] == a[0];
      assert (a + b)[1..] == a[1..] + b;
      KeepPublishedAppend(a[1..], b);
    }
  }

  /** The published posts of a listing are those of its parts, in the same order: the
      pipeline keeps directory order and every occurrence. */
  lemma {:induction false} PublishedAppend(a: seq<DirEntry>, b: seq<DirEntry>, parse: string -> Option<Matter>)
    ensures Published(a + b, parse) == Published(a, parse) + Published(b, parse)
  {
    MarkdownFilesAppend(a, b);
    LoadedAppend(MarkdownFiles(a), MarkdownFiles(b), parse);
    KeepPublishedAppend(Loaded(MarkdownFiles(a), parse), Loaded(MarkdownFiles(b), parse));
  }

  /** One entry contributes its summary exactly when it is a ".md" file that reads, parses,
      has title and date, and is not a draft; otherwise nothing. */
  lemma {:induction false} PublishedOne(e: DirEntry, parse: string -> Option<Matter>)
    ensures var o := ReadSummary(e, parse);
      Published([e], parse) ==
        if EndsWith(e.name, ".md") && o.Some? && !o.value.draft then [o.value] else []
  {
    assert [e][1..] == [];
    if EndsWith(e.name, ".md") {
      assert MarkdownFiles([e]) == [e];
      var l := Loaded([e], parse);
      assert l == [ReadSummary(e, parse)];
      assert l[1..] == [];
    } else {
      assert MarkdownFiles([e]) == [];
    }
  }

  // ---------------------------------------------------------------------------------------
  // The comparator and the stable sort

  /** `new Date(p.date).getTime()`, supplied by the caller. */
  function TimeOf(p: Summary, timeOf: Value -> int): int
  {
    timeOf(p.date)
  }

  /** The comparator passed to `posts.sort`. */
  function Compare(a: Summary, b: Summary, timeOf: Value -> int): (c: int)
    ensures c < 0 <==> (a.pinned && !b.pinned) || (a.pinned == b.pinned && TimeOf(a, timeOf) > TimeOf(b, timeOf))
    ensures c == 0 <==> a.pinned == b.pinned && TimeOf(a, timeOf) == TimeOf(b, timeOf)
  {
    if a.pinned && !b.pinned then -1
    else if !a.pinned && b.pinned then 1
    else TimeOf(b, timeOf) - TimeOf(a, timeOf)
  }

  /** `a` may stand before `b` in the sorted result. */
  predicate InOrder(a: Summary, b: Summary, timeOf: Value -> int)
  {
    Compare(a, b, timeOf) <= 0
  }

  predicate Sorted(s: seq<Summary>, timeOf: Value -> int)
  {
    forall i, j :: 0 <= i < j < |s| ==> InOrder(s[i], s[j], timeOf)
  }

  /** `x` placed into sorted `s` after every element that does not compare greater than it:
      what one pass of a stable insertion sort does. */
  function Insert(s: seq<Summary>, x: Summary, timeOf: Value -> int): (r: seq<Summary>)
    ensures |r| == |s| + 1
    decreases |s|
  {
    if s == [] then [x]
    else if Compare(s[|s| - 1], x, timeOf) > 0 then Insert(s[..|s| - 1], x, timeOf) + [s[|s| - 1]]
    else s + [x]
  }

  /** The order `posts.sort(compare)` produces: ECMAScript requires the sort to be stable. */
  function StableSort(s: seq<Summary>, timeOf: Value -> int): (r: seq<Summary>)
    ensures |r| == |s|
    decreases |s|
  {
    if s == [] then [] else Insert(StableSort(s[..|s| - 1], timeOf), s[|s| - 1], timeOf)
  }

  /** The elements of `s` that compare equal to `x`, in order. */
  function Ties(s: seq<Summary>, x: Summary, timeOf: Value -> int): (r: seq<Summary>)
    ensures forall y :: y in r ==> Compare(y, x, timeOf) == 0
    decreases |s|
  {
    if s == [] then []
    else
      var rest := Ties(s[..|s| - 1], x, timeOf);
      if Compare(s[|s| - 1], x, timeOf) == 0 then rest + [s[|s| - 1]] else rest
  }

  /** Any two posts can be ordered: with `CompareTransitive`, the order the comparator
      induces is a total preorder. */
  lemma CompareTotal(a: Summary, b: Summary, timeOf: Value -> int)
    ensures InOrder(a, b, timeOf) || InOrder(b, a, timeOf)
  {
  }

  /** The order the comparator induces is transitive. */
  lemma CompareTransitive(a: Summary, b: Summary, c: Summary, timeOf: Value -> int)
    requires InOrder(a, b, timeOf) && InOrder(b, c, timeOf)
    ensures InOrder(a, c, timeOf)
  {
  }

  /** One insertion step adds `x` and loses nothing. */
  lemma {:induction false} InsertPermutes(s: seq<Summary>, x: Summary, timeOf: Value -> int)
    ensures multiset(Insert(s, x, timeOf)) == multiset(s) + multiset{x}
    decreases |s|
  {
    if s != [] && Compare(s[|s| - 1], x, timeOf) > 0 {
      InsertPermutes(s[..|s| - 1], x, timeOf);
      assert s == s[..|s| - 1] + [s[|s| - 1]];
    }
  }

  /** Every element of `Insert(init, x)` may stand before `last` when every element of `init`
      and `x` itself may. */
  lemma {:induction false} InsertBelow(init: seq<Summary>, x: Summary, last: Summary, timeOf: Value -> int)
    requires forall i :: 0 <= i < |init| ==> InOrder(init[i], last, timeOf)
    requires InOrder(x, last, timeOf)
    ensures forall i :: 0 <= i < |Insert(init, x, timeOf)| ==> InOrder(Insert(init, x, timeOf)[i], last, timeOf)
  {
    var r := Insert(init, x, timeOf);
    InsertPermutes(init, x, timeOf);
    forall i | 0 <= i < |r| ensures InOrder(r[i], last, timeOf) {
      assert r[i] in multiset(r);
      if r[i] != x {
        assert r[i] in init;
      }
    }
  }

  /** Appending an element that every element of a sorted list may precede keeps it sorted. */
  lemma {:induction false} AppendSorted(s: seq<Summary>, y: Summary, timeOf: Value -> int)
    requires Sorted(s, timeOf)
    requires forall i :: 0 <= i < |s| ==> InOrder(s[i], y, timeOf)
    ensures Sorted(s + [y], timeOf)
  {
  }

  /** Inserting into a sorted list keeps it sorted. */
  lemma {:induction false} InsertSorted(s: seq<Summary>, x: Summary, timeOf: Value -> int)
    requires Sorted(s, timeOf)
    ensures Sorted(Insert(s, x, timeOf), timeOf)
    decreases |s|
  {
    if s != [] {
      var last := s[|s| - 1];
      var init := s[..|s| - 1];
      if Compare(last, x, timeOf) > 0 {
        InsertSorted(init, x, timeOf);
        InsertBelow(init, x, last, timeOf);
        AppendSorted(Insert(init, x, timeOf), last, timeOf);
      } else {
        forall i | 0 <= i < |s| ensures InOrder(s[i], x, timeOf) {
          if i < |s| - 1 {
            CompareTransitive(s[i], last, x, timeOf);
          }
        }
        AppendSorted(s, x, timeOf);
      }
    }
  }

  /** Inserting `y` adds it to the end of its own tie class and leaves every other class
      as it was. */
  lemma {:induction false} InsertTies(s: seq<Summary>, y: Summary, x: Summary, timeOf: Value -> int)
    ensures Ties(Insert(s, y, timeOf), x, timeOf) ==
      Ties(s, x, timeOf) + (if Compare(y, x, timeOf) == 0 then [y] else [])
    decreases |s|
  {
    if s == [] {
      assert Insert(s, y, timeOf) == [y];
      assert Ties([y], x, timeOf) == Ties([], x, timeOf) + (if Compare(y, x, timeOf) == 0 then [y] else []);
    } else {
      var init, last := s[..|s| - 1], s[|s| - 1];
      if Compare(last, y, timeOf) > 0 {
        var r := Insert(init, y, timeOf) + [last];
        InsertTies(init, y, x, timeOf);
        assert r[..|r| - 1] == Insert(init, y, timeOf);
        assert !(Compare(y, x, timeOf) == 0 && Compare(last, x, timeOf) == 0);
      } else {
        var r := s + [y];
        assert r[..|r| - 1] == s;
      }
    }
  }

  // ---------------------------------------------------------------------------------------
  // What the sort guarantees

  /** The sorted result is a permutation of the input. */
  lemma {:induction false} StableSortPermutes(s: seq<Summary>, timeOf: Value -> int)
    ensures multiset(StableSort(s, timeOf)) == multiset(s)
    decreases |s|
  {
    if s != [] {
      StableSortPermutes(s[..|s| - 1], timeOf);
      InsertPermutes(StableSort(s[..|s| - 1], timeOf), s[|s| - 1], timeOf);
      assert s == s[..|s| - 1] + [s[|s| - 1]];
    }
  }

  /** The sorted result is ordered by the comparator. */
  lemma {:induction false} StableSortSorted(s: seq<Summary>, timeOf: Value -> int)
    ensures Sorted(StableSort(s, timeOf), timeOf)
    decreases |s|
  {
    if s != [] {
      StableSortSorted(s[..|s| - 1], timeOf);
      InsertSorted(StableSort(s[..|s| - 1], timeOf), s[|s| - 1], timeOf);
    }
  }

  /** Stability: posts that compare equal keep their input order. */
  lemma {:induction false} StableSortStable(s: seq<Summary>, x: Summary, timeOf: Value -> int)
    ensures Ties(StableSort(s, timeOf), x, timeOf) == Ties(s, x, timeOf)
    decreases |s|
  {
    if s != [] {
      var init := s[..|s| - 1];
      StableSortStable(init, x, timeOf);
      InsertTies(StableSort(init, timeOf), s[|s| - 1], x, timeOf);
    }
  }

  /** In a sorted list every pinned post precedes every unpinned one, and dates do not increase
      within a pin group. */
  lemma SortedMeansPinnedThenNewest(s: seq<Summary>, timeOf: Value -> int)
    requires Sorted(s, timeOf)
    ensures forall i, j :: 0 <= i < j < |s| && s[j].pinned ==> s[i].pinned
    ensures forall i, j :: 0 <= i < j < |s| && s[i].pinned == s[j].pinned ==>
      TimeOf(s[i], timeOf) >= TimeOf(s[j], timeOf)
  {
    forall i, j | 0 <= i < j < |s| ensures (s[j].pinned ==> s[i].pinned) &&
      (s[i].pinned == s[j].pinned ==> TimeOf(s[i], timeOf) >= TimeOf(s[j], timeOf))
    {
      assert InOrder(s[i], s[j], timeOf);
    }
  }

  /** Re-attaching the last element of `p` after `x` has been placed at `j` before it. */
  lemma {:induction false} PlaceBeforeLast(p: seq<Summary>, j: int, x: Summary)
    requires 0 <= j < |p|
    ensures p[..|p| - 1][..j] + [x] + p[..|p| - 1][j..] + [p[|p| - 1]] == p[..j] + [x] + p[j..]
  {
    var init, last := p[..|p| - 1], p[|p| - 1];
    assert init[..j] == p[..j];
    assert init[j..] + [last] == p[j..] by {
      assert p[j..] == p[j..|p| - 1] + [last];
    }
    assert init[..j] + [x] + init[j..] + [last] == init[..j] + [x] + (init[j..] + [last]);
  }

  /** One unfolding of `Insert` when the last element compares greater than `x`. */
  lemma {:induction false} InsertPastLast(p: seq<Summary>, x: Summary, timeOf: Value -> int)
    requires |p| > 0 && Compare(p[|p| - 1], x, timeOf) > 0
    ensures Insert(p, x, timeOf) == Insert(p[..|p| - 1], x, timeOf) + [p[|p| - 1]]
  {
  }

  /** `x` lands just after the last element that does not compare greater than it. */
  lemma {:induction false} InsertAt(p: seq<Summary>, j: int, x: Summary, timeOf: Value -> int)
    requires 0 <= j <= |p| && (j == 0 || Compare(p[j - 1], x, timeOf) <= 0)
    requires forall k :: j <= k < |p| ==> Compare(p[k], x, timeOf) > 0
    ensures Insert(p, x, timeOf) == p[..j] + [x] + p[j..]
    decreases |p|
  {
    if j < |p| {
      var init := p[..|p| - 1];
      forall k | j <= k < |init| ensures Compare(init[k], x, timeOf) > 0 {
        assert init[k] == p[k];
      }
      assert j == 0 || init[j - 1] == p[j - 1];
      InsertAt(init, j, x, timeOf);
      InsertPastLast(p, x, timeOf);
      PlaceBeforeLast(p, j, x);
    } else {
      assert p[..j] == p;
    }
  }

  lemma StableSortPrefix(s: seq<Summary>, i: int, timeOf: Value -> int)
    requires 0 <= i < |s|
    ensures StableSort(s[..i + 1], timeOf) == Insert(StableSort(s[..i], timeOf), s[i], timeOf)
  {
    assert s[..i + 1][..i] == s[..i];
  }

  /** The shifting loop of one insertion pass: every element of `a[..i]` from the end that
      compares greater than `x` moves one place right; `j` is the hole left behind. */
  method ShiftGreater(a: array<Summary>, i: int, x: Summary, timeOf: Value -> int) returns (j: int)
    requires 0 <= i < a.Length
    modifies a
    ensures 0 <= j <= i
    ensures forall k :: 0 <= k < j ==> a[k] == old(a[k])
    ensures forall k :: j < k <= i ==> a[k] == old(a[k - 1])
    ensures forall k :: i < k < a.Length ==> a[k] == old(a[k])
    ensures forall k :: j <= k < i ==> Compare(old(a[k]), x, timeOf) > 0
    ensures j == 0 || Compare(old(a[j - 1]), x, timeOf) <= 0
  {
    j := i;
    while j > 0 && Compare(a[j - 1], x, timeOf) > 0
      invariant 0 <= j <= i
      invariant forall k :: 0 <= k < j ==> a[k] == old(a[k])
      invariant forall k :: j < k <= i ==> a[k] == old(a[k - 1])
      invariant forall k :: i < k < a.Length ==> a[k] == old(a[k])
      invariant forall k :: j <= k < i ==> Compare(old(a[k]), x, timeOf) > 0
    {
      a[j] := a[j - 1];
      j := j - 1;
    }
  }

  /** One pass of the insertion sort: `a[i]` moves left past every element of the sorted
      prefix `a[..i]` that compares greater than it. */
  method InsertPass(a: array<Summary>, i: int, timeOf: Value -> int)
    requires 0 <= i < a.Length
    modifies a
    ensures a[..i + 1] == Insert(old(a[..i]), old(a[i]), timeOf)
    ensures a[i + 1..] == old(a[i + 1..])
  {
    ghost var p := a[..i];
    ghost var rest := a[i + 1..];
    var x := a[i];
    var j := ShiftGreater(a, i, x, timeOf);
    InsertAt(p, j, x, timeOf);
    a[j] := x;
    ghost var r := p[..j] + [x] + p[j..];
    forall k | 0 <= k <= i
      ensures a[k] == r[k]
    {
      if k > j {
        assert r[k] == p[k - 1];
      }
    }
    assert a[..i + 1] == r;
    forall m | 0 <= m < |rest|
      ensures a[i + 1..][m] == rest[m]
    {
      assert a[i + 1..][m] == a[i + 1 + m];
    }
  }

  /** `posts.sort(compare)` on the array, in place: an insertion sort that shifts every
      element comparing greater than the one being inserted, which keeps ties in order. */
  method SortPosts(a: array<Summary>, timeOf: Value -> int)
    modifies a
    ensures a[..] == StableSort(old(a[..]), timeOf)
  {
    ghost var s := a[..];
    var i := 0;
    while i < a.Length
      invariant 0 <= i <= a.Length
      invariant a[..i] == StableSort(s[..i], timeOf)
      invariant a[i..] == s[i..]
    {
      InsertPass(a, i, timeOf);
      StableSortPrefix(s, i, timeOf);
      i := i + 1;
    }
    assert s[..a.Length] == s;
  }

  // ---------------------------------------------------------------------------------------
  // getAllPosts

  /** `getAllPosts()`. It never throws: a missing or unlistable directory, or one without
      ".md" files, gives the empty list; otherwise the published posts, stably sorted. */
  method GetAllPosts(dir: ContentDir, parse: string -> Option<Matter>, timeOf: Value -> int)
    returns (posts: seq<Summary>)
    ensures dir.Missing? || dir.Unlistable? ==> posts == []
    ensures dir.Listed? && MarkdownFiles(dir.entries) == [] ==> posts == []
    ensures dir.Listed? ==> posts == StableSort(Published(dir.entries, parse), timeOf)
  {
    if dir.Missing? || dir.Unlistable? {
      return [];
    }
    var files := MarkdownFiles(dir.entries);
    if |files| == 0 {
      return [];
    }
    var published := KeepPublished(Loaded(files, parse));
    var a := new Summary[|published|](i requires 0 <= i < |published| => published[i]);
    assert a[..] == published;
    SortPosts(a, timeOf);
    posts := a[..];
  }

  /** A post is published exactly when it comes from a ".md" entry that reads, parses and
      has a title and a date, and it is not a draft: a failing file drops out on its own. */
  lemma PublishedContents(entries: seq<DirEntry>, parse: string -> Option<Matter>, p: Summary)
    ensures p in Published(entries, parse) <==>
      !p.draft && exists e :: e in entries && EndsWith(e.name, ".md") && ReadSummary(e, parse) == Some(p)
  {
    var files := MarkdownFiles(entries);
    assert Published(entries, parse) == KeepPublished(Loaded(files, parse));
    LoadedContains(files, parse, p);
  }

  /** A summary is loaded exactly when some file reads as it. */
  lemma LoadedContains(files: seq<DirEntry>, parse: string -> Option<Matter>, p: Summary)
    ensures Some(p) in Loaded(files, parse) <==> exists e :: e in files && ReadSummary(e, parse) == Some(p)
  {
    var os := Loaded(files, parse);
    if Some(p) in os {
      var i :| 0 <= i < |os| && os[i] == Some(p);
      assert files[i] in files;
    }
    if exists e :: e in files && ReadSummary(e, parse) == Some(p) {
      var e :| e in files && ReadSummary(e, parse) == Some(p);
      var i :| 0 <= i < |files| && files[i] == e;
      assert os[i] == Some(p);
    }
  }

  /** What `getAllPosts` returns for a listed directory: the published posts and only them,
      each as often as it was loaded, none a draft, pinned ones first, newest first within a
      pin group, and posts with equal keys in directory order. */
  lemma {:induction false} ListingGuarantees(entries: seq<DirEntry>, parse: string -> Option<Matter>,
                                             timeOf: Value -> int)
    ensures var r := StableSort(Published(entries, parse), timeOf);
      && multiset(r) == multiset(Published(entries, parse))
      && (forall p :: p in r ==> !p.draft)
      && (forall i, j :: 0 <= i < j < |r| && r[j].pinned ==> r[i].pinned)
      && (forall i, j :: 0 <= i < j < |r| && r[i].pinned == r[j].pinned ==>
            TimeOf(r[i], timeOf) >= TimeOf(r[j], timeOf))
      && (forall x :: Ties(r, x, timeOf) == Ties(Published(entries, parse), x, timeOf))
  {
    var s := Published(entries, parse);
    var r := StableSort(s, timeOf);
    StableSortPermutes(s, timeOf);
    StableSortSorted(s, timeOf);
    SortedMeansPinnedThenNewest(r, timeOf);
    forall p | p in r ensures !p.draft {
      assert p in multiset(r);
    }
    forall x ensures Ties(r, x, timeOf) == Ties(s, x, timeOf) {
      StableSortStable(s, x, timeOf);
    }
  }

  /** For a file named `<base>.md` whose base has no dot, dropping the first ".md" gives the
      base back. */
  lemma {:induction false} SlugOfFilename(base: string)
    requires '.' !in base
    ensures ReplaceFirst(base + ".md", ".md", "") == base
  {
    var name := base + ".md";
    assert OccursAt(name, ".md", |base|) by {
      assert name[|base|..|base| + 3] == ".md";
    }
    var k := IndexOf(name, ".md");
    forall j | 0 <= j < |base| ensures !OccursAt(name, ".md", j) {
      assert name[j..j + 3][0] == name[j] == base[j];
    }
    assert k == |base|;
    assert name[..k] == base;
  }

  /** A file `<slug>.md` without a `slug` field in its frontmatter is listed under a slug that
      the blog route accepts back when the file name is a valid slug. */
  lemma {:induction false} ListedSlugRoundTrip(slug: string, data: map<string, Value>)
    requires BlogSlugDto.Accepts(slug) && HasRequired(data) && !Truthy(Field(data, "slug"))
    ensures ToSummary(slug + ".md", data).value.slug == Str(slug)
  {
    BlogSlugDto.AcceptedSlugIsPlainSegment(slug);
    SlugOfFilename(slug);
  }

  /** Two files: an unpinned post listed first and a pinned one after it. The pinned post
      comes first whatever the dates. */
  lemma PinnedFirstExample(a: Summary, b: Summary, timeOf: Value -> int)
    requires !a.pinned && b.pinned
    ensures StableSort([a, b], timeOf) == [b, a]
  {
    assert [a, b][..1] == [a];
    assert [a][..0] == [];
    assert StableSort([a], timeOf) == [a] by {
      assert StableSort([a], timeOf) == Insert(StableSort([], timeOf), a, timeOf);
    }
    assert Compare(a, b, timeOf) > 0;
    assert Insert([a], b, timeOf) == Insert([], b, timeOf) + [a];
  }
}
