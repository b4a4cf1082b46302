/** `BlogService.getPostBySlug`: a guard chain in which every failure ends as a NotFound. The
    path check, the existence check, the required fields and the draft flag each throw their
    own NotFound; any other exception (a read, parse or render that throws) is caught and
    turned into the generic "Blog post not found" NotFound. */
module BlogPost {
  import opened Js
  import opened PosixPath
  import opened BlogPaths
  import opened BlogListing
  import BlogSlugDto

  /** The post `getPostBySlug` returns; it never has a `draft` field. */
  datatype Post = Post(
    slug: string, title: Value, date: Value, excerpt: Value, author: Value,
    tags: seq<Value>, pinned: bool, content: string, html: string)

  /** The outcome: the post, or the message of the NotFoundException thrown. */
  datatype Lookup = Found(post: Post) | NotFound(message: string)

  const InvalidFormatMessage := "Invalid blog post format"

  function NotFoundMessage(slug: string): string
  {
    "Blog post not found: " + slug
  }

  /** The post built from a file's frontmatter and rendered body. Its metadata is the
      metadata the listing's summary of the same frontmatter carries, and its author is
      never falsy. */
  function PostOf(slug: string, m: Matter, html: string): (r: Post)
    ensures r.slug == slug && r.content == m.content && r.html == html
    ensures Truthy(r.author) && (r.pinned <==> Field(m.data, "pinned") == Bool(true))
    ensures HasRequired(m.data) ==>
      var s := ToSummary(slug + ".md", m.data).value;
      && r.title == s.title && r.date == s.date && r.excerpt == s.excerpt
      && r.author == s.author && r.tags == s.tags && r.pinned == s.pinned
  {
    Post(slug, Field(m.data, "title"), Field(m.data, "date"),
         Or(Field(m.data, "excerpt"), Str("")), Or(Field(m.data, "author"), Str(DefaultAuthor)),
         TagsOf(Field(m.data, "tags")), Field(m.data, "pinned") == Bool(true), m.content, html)
  }

  /** `getPostBySlug(slug)`. `files` maps each existing path to its contents, or to None when
      reading it throws; `parse` is gray-matter and `render` is `marked`, each None when it
      throws. */
  function GetPostBySlug(cwd: string, slug: string, files: map<string, Option<string>>,
                         parse: string -> Option<Matter>, render: string -> Option<string>): (r: Lookup)
    requires IsAbsolute(cwd)
    ensures ValidatePath(ContentPath(cwd), slug).Invalid? ==> r == NotFound(InvalidPathMessage)
    ensures r.NotFound? ==>
      r.message in {InvalidPathMessage, InvalidFormatMessage, NotFoundMessage(slug)}
    ensures r.Found? ==>
      var path := ValidatePath(ContentPath(cwd), slug).path;
      && ValidatePath(ContentPath(cwd), slug).Resolved?
      && path in files && files[path].Some?
      && parse(files[path].value).Some?
      && var m := parse(files[path].value).value;
      && HasRequired(m.data) && Field(m.data, "draft") != Bool(true)
      && r.post.slug == slug && r.post.content == m.content
      && Some(r.post.html) == render(m.content)
  {
    match ValidatePath(ContentPath(cwd), slug)
    case Invalid(message) => NotFound(message)
    case Resolved(path) =>
      if path !in files then NotFound(NotFoundMessage(slug))
      else
        match files[path]
        case None => NotFound(NotFoundMessage(slug))
        case Some(text) =>
          match parse(text)
          case None => NotFound(NotFoundMessage(slug))
          case Some(m) =>
            if !HasRequired(m.data) then NotFound(InvalidFormatMessage)
            else if Field(m.data, "draft") == Bool(true) then NotFound(NotFoundMessage(slug))
            else
              match render(m.content)
              case None => NotFound(NotFoundMessage(slug))
              case Some(html) => Found(PostOf(slug, m, html))
  }

  /** A slug the path check refuses is refused the same way whatever is on disk. */
  lemma RejectedPathIgnoresFiles(cwd: string, slug: string,
                                 files1: map<string, Option<string>>, files2: map<string, Option<string>>,
                                 parse: string -> Option<Matter>, render: string -> Option<string>)
    requires IsAbsolute(cwd) && ValidatePath(ContentPath(cwd), slug).Invalid?
    ensures GetPostBySlug(cwd, slug, files1, parse, render) == GetPostBySlug(cwd, slug, files2, parse, render)
  {
  }

  /** A draft cannot be told apart from a post that does not exist: the reply for a well-formed
      draft is the reply for the same slug with the file deleted. */
  lemma DraftLooksMissing(cwd: string, slug: string, files: map<string, Option<string>>,
                          parse: string -> Option<Matter>, render: string -> Option<string>)
    requires IsAbsolute(cwd) && ValidatePath(ContentPath(cwd), slug).Resolved?
    requires var path := ValidatePath(ContentPath(cwd), slug).path;
      path in files && files[path].Some? && parse(files[path].value).Some? &&
      HasRequired(parse(files[path].value).value.data) &&
      Field(parse(files[path].value).value.data, "draft") == Bool(true)
    ensures var path := ValidatePath(ContentPath(cwd), slug).path;
      GetPostBySlug(cwd, slug, files, parse, render) ==
      GetPostBySlug(cwd, slug, files - {path}, parse, render) ==
      NotFound(NotFoundMessage(slug))
  {
  }

  /** A post opens with the fields the index shows for its file: title, date, excerpt,
      author, tags and pin agree with the summary built from the same frontmatter, and the
      slug is the one requested. */
  lemma {:induction false} OpenedPostMatchesSummary(cwd: string, slug: string, files: map<string, Option<string>>,
                                                     parse: string -> Option<Matter>, render: string -> Option<string>,
                                                     filename: string)
    requires IsAbsolute(cwd)
    requires GetPostBySlug(cwd, slug, files, parse, render).Found?
    ensures var path := ValidatePath(ContentPath(cwd), slug).path;
      var m := parse(files[path].value).value;
      var post := GetPostBySlug(cwd, slug, files, parse, render).post;
      var summary := ToSummary(filename, m.data);
      && summary.Some? && !summary.value.draft
      && post.title == summary.value.title && post.date == summary.value.date
      && post.excerpt == summary.value.excerpt && post.author == summary.value.author
      && post.tags == summary.value.tags && post.pinned == summary.value.pinned
  {
  }

  /** For a slug the route accepts, the post is read from `<content root>/<slug>.md`: with that
      file readable, well formed, not a draft and rendering to `html`, the post is found. */
  lemma {:induction false} AcceptedSlugFound(cwd: string, slug: string, files: map<string, Option<string>>,
                                             parse: string -> Option<Matter>, render: string -> Option<string>,
                                             text: string, html: string)
    requires IsAbsolute(cwd) && BlogSlugDto.Accepts(slug)
    requires ContentPath(cwd) + "/" + slug + ".md" in files
    requires files[ContentPath(cwd) + "/" + slug + ".md"] == Some(text)
    requires parse(text).Some? && HasRequired(parse(text).value.data)
    requires Field(parse(text).value.data, "draft") != Bool(true)
    requires render(parse(text).value.content) == Some(html)
    ensures GetPostBySlug(cwd, slug, files, parse, render) == Found(PostOf(slug, parse(text).value, html))
  {
    AcceptedSlugResolves(cwd, slug);
  }
}
