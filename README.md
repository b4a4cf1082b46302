# Blog content pipeline and contact handlers of jordancolehunt.com, in Dafny

This project models the logic of a personal website written in TypeScript (NestJS, with a
Next.js API route and a second NestJS version), and proves what that logic promises.

- **The slug resolver** (`BlogService.validatePath`). A requested slug is normalised with
  Node's `path.posix.normalize` and stripped of leading `../` and `..\` steps. It is joined
  under `<cwd>/content/blog` with `.md` appended, then accepted only if `path.relative` from
  the root is non-empty and does not start with `..`. `normalize`, `join` and `relative` are
  modelled on '/'-separated segments (module `PosixPath`). The main theorem is containment:
  an accepted path always lies strictly below the root.
- **The slug grammar** of the blog route (`BlogSlugDto`): a string of 1 to 100 characters
  from `[a-z0-9-]`. It composes with the resolver: an accepted slug resolves to
  `<root>/<slug>.md`.
- **The blog index** (`getAllPosts`):
  - the directory's `.md` files are read and parsed, and each becomes a summary with
    defaults filled in, or is skipped;
  - drafts are dropped;
  - the rest is sorted in place with a stable sort: pinned posts first, then newest first.

  The sort is an insertion sort on an `array`, proved equal to a functional stable sort.
  That function is proved to produce a permutation that is sorted and that keeps tied
  posts in input order.
- **The single-post lookup** (`getPostBySlug`): a guard chain in which every failure is a
  NotFound with one of three messages.
- **The code-block renderer** (`renderer.code`), with highlight.js as an oracle, and the
  DOMPurify allow-list as constants.
- **The contact handlers**: the NestJS controller (fields, e-mail shape, client address,
  captcha, mail), its second version without captcha, and the Next.js API route (method
  guard, fields, sender normalisation).
  - The e-mail regular expression is a ghost predicate, proved equivalent to a computable
    check.
  - Service calls are oracles, and each handler returns the calls it made, in order.
- **`ConfigService`**: the GitHub user name with its default, and the URL builder.

All `.dfy` files are verified together; there is no entry point.

Two behaviours of the code are easy to misread, and the model follows the code:

- `validatePath` is documented as preventing path traversal
  (src/services/blog.service.ts:73-76), and tests/blog.spec.ts:223-229 requests
  `../../../etc/passwd`. `validatePath` does not refuse such a slug: it strips the leading
  traversal and resolves the rest inside the root, as `<root>/etc/passwd.md`
  (`BlogPaths.LeadingTraversalConfined`). Containment holds for every slug. What refuses
  such slugs is the route's slug grammar (`BlogSlugDto.HostileSlugsRefused`).
- A summary's fallback slug is `filename.replace('.md', '')`
  (src/services/blog.service.ts:122), which drops the first ".md" anywhere in the name, not
  only a trailing extension. `ListedSlugRoundTrip` shows the two agree for file names that
  are valid slugs. Dates are not checked to be parseable when files are loaded.

## Model

| member | source | states |
|---|---|---|
| Js.Or | src/services/blog.service.ts:122-126 | `a \|\| b` is `a` when `a` is truthy and `b` otherwise |
| Js.IndexOf | src/services/blog.service.ts:122 | the result is the first position where the pattern occurs, or -1 when it occurs nowhere |
| Js.ReplaceFirst | src/services/blog.service.ts:122 | with no occurrence the string is unchanged; otherwise the text before and after the first occurrence is kept around the replacement |
| Js.RemoveAll | src/pages/api/contact.ts:33 | the character no longer occurs, every other character is kept, and a string without it is unchanged |
| Js.RemoveAllAppend | src/pages/api/contact.ts:33 | removing from a concatenation removes from each part and keeps their order |
| Js.RemoveAllOne | src/pages/api/contact.ts:33 | a single character is dropped iff it is the one removed |
| Js.AsciiLower | src/pages/api/contact.ts:33 | same length, each character lowercased in place |
| Js.Trim | src/controllers/contact.controller.ts:38 | the trimmed string is empty or begins and ends with a non-whitespace character |
| Js.TrimIsSlice | src/controllers/contact.controller.ts:38 | the trimmed string is a slice of the input, and everything cut off before and after it is whitespace |
| Js.BeforeFirst | src/controllers/contact.controller.ts:38 | `split(sep)[0]`: a prefix without the separator, followed in the input by the separator or by nothing |
| PosixPath.Split | src/services/blog.service.ts:78-80 | at least one segment, and no segment contains '/' |
| PosixPath.PushShape | src/services/blog.service.ts:78 | one `normalizeString` step leaves everything below the top of the stack alone: it pushes one segment, pops one only for "..", or changes nothing |
| PosixPath.ResolveFrom | src/services/blog.service.ts:78 | the normalisation fold never yields more segments than the stack and the input together |
| PosixPath.Normalize | src/services/blog.service.ts:78 | never empty, and absolute exactly when the input is |
| PosixPath.Join | src/services/blog.service.ts:79 | joining onto an absolute path gives an absolute path |
| PosixPath.Components | src/services/blog.service.ts:80 | a resolved absolute path has no empty, "." or ".." segment |
| PosixPath.CommonPrefix | src/services/blog.service.ts:80 | the length of the longest common prefix: shared, and not extendable |
| PosixPath.Relative | src/services/blog.service.ts:80 | `relative(from, to)` is the empty string iff both name the same resolved path |
| PosixPath.SplitJoin | src/services/blog.service.ts:78-80 | splitting joined slash-free segments gives them back |
| PosixPath.ResolveProper | src/services/blog.service.ts:78 | proper segments pass through the normalisation fold unchanged |
| PosixPath.NormalizeAbsolute | src/services/blog.service.ts:78 | the normal form of an absolute path is '/' and its components, keeping a trailing '/' |
| PosixPath.NormalizeIdempotent | src/services/blog.service.ts:79-80 | for an absolute path, normalising twice equals normalising once and keeps the components |
| PosixPath.RelativeInside | src/services/blog.service.ts:80-83 | `relative(from, to)` is non-empty and does not start with ".." iff `to` is strictly below `from` and its first segment below `from` does not start with ".." |
| BlogSlugDto.Violations | src/dto/blog-slug.dto.ts:4-9 | no constraint fails iff the value is a string of 1 to 100 characters from `[a-z0-9-]`; a non-string fails all three; a long string fails MaxLength |
| BlogSlugDto.PipeStatus | src/dto/blog-slug.dto.ts:4-9 | the request goes through iff no constraint fails, and is refused with exactly 400 Bad Request otherwise |
| BlogSlugDto.AcceptedSlugIsPlainSegment | src/dto/blog-slug.dto.ts:6-8 | an accepted slug is 1 to 100 characters long, has no '.', '/' or '\\', and does not start with a dot |
| BlogSlugDto.HostileSlugsRefused | tests/blog.spec.ts:223-236 | the script-tag slug and `../../../etc/passwd` are refused with 400 |
| BlogPaths.ContentPath | src/services/blog.service.ts:25 | the content root is an absolute path |
| BlogPaths.ContentPathShape | src/services/blog.service.ts:25 | the root's components are the working directory's followed by "content" and "blog", and it is written in normal form |
| BlogPaths.StripTraversal | src/services/blog.service.ts:78 | no traversal step is left at the front, and the input is unchanged iff it does not start with one |
| BlogPaths.StripTraversalCutsSteps | src/services/blog.service.ts:78 | exactly one run of whole `../` or `..\` steps is cut, possibly ending in a final `..` at the end of the input |
| BlogPaths.StripTraversalExamples | src/services/blog.service.ts:78 | `..//x` keeps `/x`, `..x` is untouched, `../..\a` gives `a` and `../..` gives the empty string |
| BlogPaths.StripTraversalCutsPrefix | src/services/blog.service.ts:78 | the result is a suffix of the input, and what was cut is only '.', '/' and '\\' |
| BlogPaths.CandidateFile | src/services/blog.service.ts:78-79 | the candidate file is an absolute path |
| BlogPaths.ValidatePath | src/services/blog.service.ts:77-88 | a returned path is the candidate file and lies strictly below the root; it is returned iff the candidate is strictly below the root with a first segment not starting with ".."; otherwise the error is "Invalid blog post path" |
| BlogPaths.ValidatePathProper | src/services/blog.service.ts:77-88 | when the stripped slug with ".md" is made of proper segments, the file is the literal `root + "/" + rel`, and the decision rests on the first segment alone |
| BlogPaths.AcceptedSlugResolves | src/services/blog.service.ts:77-88 | any slug the route accepts resolves to `<root>/<slug>.md` |
| BlogPaths.DotSlugsRefused | src/services/blog.service.ts:83-85 | the empty slug, "." and "..foo" are refused: their file names start with ".." |
| BlogPaths.NormalizeRelativeFixed | src/services/blog.service.ts:78 | a relative path without a leading or trailing '/' whose segments the fold leaves unchanged is its own normal form |
| BlogPaths.ResolveUps | src/services/blog.service.ts:78 | in a relative path, ".." segments pushed onto ".." segments all stay |
| BlogPaths.LeadingDotsStripped | src/services/blog.service.ts:78 | `n` leading "../" steps before proper segments survive normalisation and are exactly what the strip removes |
| BlogPaths.ExtensionSegments | src/services/blog.service.ts:79 | appending ".md" to proper segments keeps them proper and does not make the first start with ".." |
| BlogPaths.StrippedResolves | src/services/blog.service.ts:77-88 | a slug whose stripped form with ".md" is proper and does not start with ".." resolves to `root/<stripped>.md` |
| BlogPaths.LeadingTraversalConfined | src/services/blog.service.ts:78-79 | any number of leading "../" steps are stripped and the rest resolves inside the root |
| BlogListing.TagsOf | src/services/blog.service.ts:127 | tags are the array's items when `data.tags` is an array, and empty otherwise |
| BlogListing.ToSummary | src/services/blog.service.ts:116-130 | a summary exists iff title and date are truthy; title, date and tags come from the frontmatter; slug, excerpt and author are the frontmatter value when truthy and otherwise the file name without its first ".md", "" and the default author; pinned and draft are set iff the frontmatter value is exactly `true` |
| BlogListing.ReadSummary | src/services/blog.service.ts:110-134 | a summary is produced iff the file reads, parses and has title and date, and it is then the summary of its frontmatter |
| BlogListing.MarkdownFiles | src/services/blog.service.ts:101 | exactly the entries whose names end in ".md" are kept |
| BlogListing.MarkdownFilesAppend | src/services/blog.service.ts:101 | the filter keeps the order of the entries: filtering a concatenation filters each part |
| BlogListing.Loaded | src/services/blog.service.ts:108-135 | one result per file, in order, each the outcome of reading that file |
| BlogListing.LoadedAppend | src/services/blog.service.ts:108-135 | loading a concatenation loads each part in order |
| BlogListing.KeepPublished | src/services/blog.service.ts:136 | exactly the non-null, non-draft summaries are kept |
| BlogListing.KeepPublishedAppend | src/services/blog.service.ts:136 | the filter keeps order: filtering a concatenation filters each part |
| BlogListing.Published | src/services/blog.service.ts:101-136 | no more posts than entries, and none of them a draft |
| BlogListing.PublishedAppend | src/services/blog.service.ts:101-136 | the published posts of a concatenation of entries are those of each part, in order |
| BlogListing.PublishedOne | src/services/blog.service.ts:101-136 | a single entry contributes its summary iff it is a ".md" file whose summary exists and is not a draft, and nothing otherwise |
| BlogListing.Compare | src/services/blog.service.ts:139-146 | negative iff the first is pinned and the second not, or their pins agree and the first is newer; zero iff same pin and same time |
| BlogListing.CompareTransitive | src/services/blog.service.ts:139-146 | the comparator's order is transitive |
| BlogListing.CompareTotal | src/services/blog.service.ts:139-146 | any two posts are ordered one way or the other |
| BlogListing.Insert | src/services/blog.service.ts:139 | one insertion step makes the list one element longer |
| BlogListing.InsertPermutes | src/services/blog.service.ts:139 | one insertion step adds the inserted element and loses none |
| BlogListing.InsertBelow | src/services/blog.service.ts:139-146 | inserting an element no greater than a bound keeps every element at or below it |
| BlogListing.AppendSorted | src/services/blog.service.ts:139-146 | a sorted list followed by an element no smaller than all of it is sorted |
| BlogListing.StableSort | src/services/blog.service.ts:139 | the sorted list is as long as the input |
| BlogListing.InsertSorted | src/services/blog.service.ts:139-146 | inserting into a sorted list keeps it sorted |
| BlogListing.InsertTies | src/services/blog.service.ts:139 | inserting adds the element at the end of its tie class and leaves other classes alone |
| BlogListing.InsertAt | src/services/blog.service.ts:139 | the element lands just after the last entry that does not compare greater than it |
| BlogListing.StableSortPrefix | src/services/blog.service.ts:139 | sorting one more element is one more insertion step |
| BlogListing.StableSortPermutes | src/services/blog.service.ts:139-146 | the sorted list is a permutation of the input |
| BlogListing.StableSortSorted | src/services/blog.service.ts:139-146 | the sorted list is ordered by the comparator |
| BlogListing.StableSortStable | src/services/blog.service.ts:139-146 | posts comparing equal keep their input order |
| BlogListing.SortedMeansPinnedThenNewest | src/services/blog.service.ts:140-145 | in a sorted list every pinned post precedes every unpinned one, and dates do not increase within a pin group |
| BlogListing.PinnedFirstExample | src/services/blog.service.ts:141-142 | an unpinned post followed by a pinned one sorts to pinned first, whatever the dates |
| BlogListing.ShiftGreater | src/services/blog.service.ts:139 | the elements of `a[..i]` from the end that compare greater than `x` move one place right, the element before the hole does not compare greater, and the rest is untouched |
| BlogListing.InsertPass | src/services/blog.service.ts:139 | one in-place pass makes the prefix through `i` equal to the insertion of `a[i]` into the old prefix, and leaves the rest alone |
| BlogListing.SortPosts | src/services/blog.service.ts:139-146 | the in-place sort leaves the array holding the stable sort of its old contents |
| BlogListing.GetAllPosts | src/services/blog.service.ts:94-155 | a missing or unlistable directory, or one without ".md" files, gives []; otherwise the result is the stable sort of the published posts |
| BlogListing.LoadedContains | src/services/blog.service.ts:108-135 | a summary is among the loaded results iff some file reads as it |
| BlogListing.PublishedContents | src/services/blog.service.ts:101-136 | a post is published iff it is not a draft and comes from a ".md" entry that reads, parses and has title and date |
| BlogListing.ListingGuarantees | src/services/blog.service.ts:136-146 | the result is a permutation of the published posts with no draft, pinned first, newest first within a pin group, and ties in directory order |
| BlogListing.SlugOfFilename | src/services/blog.service.ts:122 | dropping the first ".md" from `<base>.md` gives `<base>` when the base has no dot |
| BlogListing.ListedSlugRoundTrip | src/services/blog.service.ts:122 | a file `<slug>.md` without a `slug` field is listed under that slug when it is a valid route slug |
| BlogPost.PostOf | src/services/blog.service.ts:188-198 | the post carries the requested slug, the body and the HTML, a truthy author, and the same title, date, excerpt, author, tags and pin as the listing summary of the same frontmatter |
| BlogPost.GetPostBySlug | src/services/blog.service.ts:161-209 | a refused path gives "Invalid blog post path"; every failure is a NotFound with one of three messages; a found post needs a readable, parsed, complete, non-draft file and carries the requested slug, its body and the rendered HTML |
| BlogPost.AcceptedSlugFound | src/services/blog.service.ts:161-198 | for an accepted slug whose `<root>/<slug>.md` is readable, complete, not a draft and renders, the post is found |
| BlogPost.RejectedPathIgnoresFiles | src/services/blog.service.ts:164 | a refused slug gets the same reply whatever is on disk |
| BlogPost.DraftLooksMissing | src/services/blog.service.ts:166-183 | a draft gets the same reply as a file that does not exist |
| BlogPost.OpenedPostMatchesSummary | src/services/blog.service.ts:188-198 | a found post has the title, date, excerpt, author, tags and pin the index shows for the same frontmatter |
| BlogRender.HintedBody | src/services/blog.service.ts:32-34 | the language hint is used iff it is truthy, recognised, and highlighting does not throw, and the body is then highlight.js's output for that language |
| BlogRender.CodeBlock | src/services/blog.service.ts:35 | a block opens with `<pre><code class="` and closes with `</code></pre>` |
| BlogRender.RenderCode | src/services/blog.service.ts:31-42 | every rendered block is a `<pre><code>` block; a used hint gives the block labelled `hljs language-<lang>` holding highlight.js's output for that language, and any other hint gives the auto-highlighted `hljs` block |
| BlogRender.ClassOf | src/services/blog.service.ts:35 | a class read from a block contains no quote |
| BlogRender.ClassOfCodeBlock | src/services/blog.service.ts:35-41 | the class written into a code block is the class read back from it |
| BlogRender.CodeBlockClass | src/services/blog.service.ts:31-42 | a block is labelled `hljs language-<lang>` iff its hint was used; otherwise it is auto-highlighted and labelled `hljs` |
| BlogRender.UnusedHintIsNoHint | src/services/blog.service.ts:36-41 | a hint that fails renders exactly as no hint |
| BlogRender.AllowListExcludesScript | src/services/blog.service.ts:52-65 | no script, iframe or style tag, no `on…`, `data-` or style attribute, and the code block's tags and class survive |
| EmailFormat.IsValidEmail | src/controllers/contact.controller.ts:31-32 | an accepted address is at least five characters long and contains '@' |
| EmailFormat.ValidEmailMatches | src/controllers/contact.controller.ts:31-32 | an address the check accepts matches the regular expression |
| EmailFormat.MatchingEmailValid | src/controllers/contact.controller.ts:31-32 | a string the regular expression matches passes the check |
| EmailFormat.AtOfAddress | src/controllers/contact.controller.ts:31 | the first '@' of a matched address ends its local part |
| EmailFormat.IsValidEmailMatchesRegex | src/controllers/contact.controller.ts:31-32 | the check accepts exactly what `/^[^\s@]+@[^\s@]+\.[^\s@]+$/` matches |
| EmailFormat.AcceptedEmailShape | src/controllers/contact.controller.ts:31-32 | an accepted address has no whitespace, exactly one '@' with text before it, and a dot strictly inside the domain |
| ContactController.FirstForwarded | src/controllers/contact.controller.ts:38 | a first hop exists iff the header does |
| ContactController.RemoteIp | src/controllers/contact.controller.ts:38-40 | the first truthy of the trimmed first hop, `X-Real-IP` and the socket address, in that order |
| ContactController.FirstEntryIsPiece | src/controllers/contact.controller.ts:38 | the trimmed first entry has no comma and is a slice of the header |
| ContactController.ForwardedAddressIsOneHop | src/controllers/contact.controller.ts:38 | an address taken from `X-Forwarded-For` is one comma-free hop without surrounding whitespace |
| ContactController.SendContactForm | src/controllers/contact.controller.ts:22-57 | missing fields give 400 and invalid e-mail gives 400, each with no call; valid input always calls the captcha first, and once it passes always calls the mail second; the mail is called only after the captcha passes; success, the fixed message, comes iff the mail goes out |
| ContactController.SentIffAllChecksPass | src/controllers/contact.controller.ts:25-49 | the reply is a success iff fields are present, the address matches, the captcha passes and the mail goes out; a mail is attempted only after all checks |
| ContactController.CaptchaAndMailFailures | src/controllers/contact.controller.ts:42-56 | a captcha refusal is passed on with no mail; a passed captcha is always followed by the mail call; a mail failure is a 500 with the fixed message |
| ContactControllerV2.SendContactForm | v2/src/controllers/contact.controller.ts:16-43 | missing fields and invalid e-mail give 400 with nothing sent; valid input always sends exactly the mail built from its fields, and nothing else sends; success, the fixed message, comes iff the send succeeds; a failed send is a 500 with the fixed message |
| ContactControllerV2.SameAsFirstVersionWithoutCaptcha | v2/src/controllers/contact.controller.ts:16-43 | when the captcha passes, the second version replies and sends as the first does |
| ContactApi.NormalizeSender | src/pages/api/contact.ts:33 | the sender address has no space and no upper-case ASCII letter |
| ContactApi.MailFor | src/pages/api/contact.ts:32-37 | the mail goes to hi@jordancolehunt.com with subject "Hello from <name>!", the message as text and the normalised sender |
| ContactApi.Handle | src/pages/api/contact.ts:11-46 | a method other than POST gives 405 with `Allow: POST` and nothing sent; missing fields give 400; a complete POST sends exactly the mail built from its fields, and no other request sends anything; 200 iff the send succeeds; a failed send is a 500 with the fixed error |
| ContactApi.LowerFixed | src/pages/api/contact.ts:33 | lowercasing text that is already lower case changes nothing |
| ContactApi.NormalizeSenderIdempotent | src/pages/api/contact.ts:33 | normalising a sender twice equals normalising once |
| ContactApi.NormalizeSenderKeeps | src/pages/api/contact.ts:33 | every non-space character of the address survives, upper-case letters as their lower-case form |
| ConfigService.NewConfig | src/services/config.service.ts:7-9 | the user name is `GITHUB_USERNAME` when set and non-empty, else "jb9k62"; never empty |
| ConfigService.GetGithubUsername | src/services/config.service.ts:11-13 | the reported user name is the one the profile URL names |
| ConfigService.GetGithubUrl | src/services/config.service.ts:15-18 | the URL starts with the profile URL, is exactly it without a truthy repository, and has room for "/" and the repository otherwise |
| ConfigService.RepoRoundTrip | src/services/config.service.ts:15-18 | the repository read back from the URL is the one given; an empty repository is the same as none |
| ConfigService.UsernameSource | src/services/config.service.ts:7-13 | the reported user name comes from the environment or is the default, and is never empty |

## Left out

- File system access (`existsSync`, `readdirSync`, `readFileSync`) is modelled as input. A directory is `Missing`, `Unlistable` or a list of entries, and a file's contents may be absent (a read that throws).
- gray-matter, `marked`, highlight.js and DOMPurify are oracles or constants. HTML sanitisation itself is not modelled; only the allow-list configuration is stated.
- The global `marked.use` configuration (src/services/blog.service.ts:45-68) is process-wide state. It is not modelled beyond the renderer and the allow-list.
- `new Date(date).getTime()` is a caller-supplied function to integers. A NaN from an unparseable date, which leaves the order unspecified, is not modelled.
- Numbers in frontmatter are integers. Fractions and NaN are not modelled.
- `toLowerCase` is ASCII lowercasing. Unicode case mapping is not modelled.
- Contact request fields are absent or strings. Other JSON values, which would make `toLowerCase` or the regular expression behave differently, are not modelled.
- PosixPath.Relative: modelled only for absolute arguments, the only kind `validatePath` passes. Node's character loop in `normalizeString` is modelled as the equivalent fold over '/'-separated segments. Windows path semantics are not modelled.
- The hCaptcha and Mailgun services are oracles returning a verdict. Their network calls, and the HCAPTCHA_SECRET check in the captcha service's constructor, are not modelled.
- Logging, HTTP wiring, cache headers and `async` scheduling are not modelled. Each handler is a function from its inputs to its reply.
- BlogSlugDto.HostileSlugsRefused: states what the slug grammar does with these inputs. A browser that normalises `../` in the URL before sending it is not modelled.
- Js.ReplaceFirst: its contract keeps the text around the first occurrence but does not state that the replacement sits between them. What the slug fallback needs is stated by `SlugOfFilename`.
- Js.Trim: its own contract states only the ends of the result. That the result is the input with whitespace cut from both ends is the separate lemma `Js.TrimIsSlice`.
- PosixPath.NormalizeIdempotent: proved for absolute paths only, the only kind `validatePath` normalises after joining. Relative inputs, which may keep leading ".." segments, are covered only by `BlogPaths.NormalizeRelativeFixed` for the shapes the resolver meets.
- `getAllPosts`'s outer `catch`: the only thrower modelled is directory listing (`Unlistable`). Within the model no other step can throw, since per-file failures are caught inside the map.
