/** The markdown rendering configured in the `BlogService` constructor: the renderer for
    fenced code blocks, with highlight.js as an oracle, and the DOMPurify allow-list applied
    to the rendered HTML. */
module BlogRender {
  import opened Js

  /** The parts of highlight.js the renderer calls: `getLanguage` (does it know the name?),
      `highlight` (None when it throws) and `highlightAuto`. */
  datatype Highlighter = Highlighter(
    knows: string -> bool,
    highlight: (string, string) -> Option<string>,
    highlightAuto: string -> string)

  const CodeOpen := "<pre><code class=\""

  /** `<pre><code class="${cls}">${body}</code></pre>` */
  function CodeBlock(cls: string, body: string): (html: string)
    ensures StartsWith(html, CodeOpen) && EndsWith(html, "</code></pre>")
  {
    CodeOpen + cls + "\">" + body + "</code></pre>"
  }

  /** The highlighted body for a language hint, when the hint is used at all: the hint is
      truthy, highlight.js knows it, and highlighting does not throw. */
  function HintedBody(text: string, lang: Option<string>, hljs: Highlighter): (body: Option<string>)
    ensures body.Some? <==> Filled(lang) && hljs.knows(lang.value) && hljs.highlight(text, lang.value).Some?
    ensures body.Some? ==> body == hljs.highlight(text, lang.value)
  {
    if Filled(lang) && hljs.knows(lang.value) then hljs.highlight(text, lang.value) else None
  }

  /** `renderer.code({text, lang})` */
  function RenderCode(text: string, lang: Option<string>, hljs: Highlighter): (html: string)
    ensures StartsWith(html, CodeOpen) && EndsWith(html, "</code></pre>")
    ensures Filled(lang) && hljs.knows(lang.value) && hljs.highlight(text, lang.value).Some? ==>
      html == CodeBlock("hljs language-" + lang.value, hljs.highlight(text, lang.value).value)
    ensures !(Filled(lang) && hljs.knows(lang.value) && hljs.highlight(text, lang.value).Some?) ==>
      html == CodeBlock("hljs", hljs.highlightAuto(text))
  {
    match HintedBody(text, lang, hljs)
    case Some(body) => CodeBlock("hljs language-" + lang.value, body)
    case None => CodeBlock("hljs", hljs.highlightAuto(text))
  }

  /** The class attribute of a rendered code block, read back from the HTML. */
  function ClassOf(html: string): (cls: string)
    ensures '"' !in cls
  {
    if StartsWith(html, CodeOpen) then BeforeFirst(html[|CodeOpen|..], '"') else ""
  }

  /** The class written into a code block is the class read back from it. */
  lemma {:induction false} ClassOfCodeBlock(cls: string, body: string)
    requires '"' !in cls
    ensures ClassOf(CodeBlock(cls, body)) == cls
  {
    var html := CodeBlock(cls, body);
    var tail := ">" + body + "</code></pre>";
    assert html == CodeOpen + (cls + ['"'] + tail);
    assert html[..|CodeOpen|] == CodeOpen;
    assert html[|CodeOpen|..] == cls + ['"'] + tail;
    BeforeFirstOfJoin(cls, '"', tail);
  }

  /** A block is labelled with its language exactly when the hint was truthy, recognised and
      highlighted without error; every other block is auto-highlighted and labelled `hljs`. */
  lemma {:induction false} CodeBlockClass(text: string, lang: Option<string>, hljs: Highlighter)
    requires Filled(lang) && hljs.knows(lang.value) ==> '"' !in lang.value
    ensures var used := Filled(lang) && hljs.knows(lang.value) && hljs.highlight(text, lang.value).Some?;
      && (used ==> ClassOf(RenderCode(text, lang, hljs)) == "hljs language-" + lang.value)
      && (!used ==> ClassOf(RenderCode(text, lang, hljs)) == "hljs")
      && (!used ==> RenderCode(text, lang, hljs) == CodeBlock("hljs", hljs.highlightAuto(text)))
  {
    var b := HintedBody(text, lang, hljs);
    if b.Some? {
      assert '"' !in "hljs language-" + lang.value;
      ClassOfCodeBlock("hljs language-" + lang.value, b.value);
    } else {
      ClassOfCodeBlock("hljs", hljs.highlightAuto(text));
    }
  }

  /** A hint that is not used renders exactly as no hint at all. */
  lemma UnusedHintIsNoHint(text: string, lang: Option<string>, hljs: Highlighter)
    requires !(Filled(lang) && hljs.knows(lang.value) && hljs.highlight(text, lang.value).Some?)
    ensures RenderCode(text, lang, hljs) == RenderCode(text, None, hljs)
  {
  }

  // ---------------------------------------------------------------------------------------
  // The sanitizer configuration

  const AllowedTags: set<string> := {
    "h1", "h2", "h3", "h4", "h5", "h6",
    "p", "br", "hr",
    "strong", "em", "code", "pre",
    "ul", "ol", "li",
    "a", "img",
    "blockquote",
    "table", "thead", "tbody", "tr", "th", "td",
    "div", "span"}

  const AllowedAttributes: set<string> := {"href", "src", "alt", "title", "class", "id"}

  const AllowDataAttributes := false

  /** An attribute the configuration lets through. */
  predicate AttributeAllowed(name: string)
  {
    name in AllowedAttributes || (AllowDataAttributes && StartsWith(name, "data-"))
  }

  /** The allow-list admits no script-bearing tag, no event-handler (`on…`) attribute, no
      inline style and no `data-` attribute, and it keeps what the code renderer emits. */
  lemma AllowListExcludesScript(name: string)
    ensures "script" !in AllowedTags && "iframe" !in AllowedTags && "style" !in AllowedTags
    ensures StartsWith(name, "on") ==> !AttributeAllowed(name)
    ensures StartsWith(name, "data-") ==> !AttributeAllowed(name)
    ensures !AttributeAllowed("style")
    ensures "pre" in AllowedTags && "code" in AllowedTags && AttributeAllowed("class")
  {
    if StartsWith(name, "on") || StartsWith(name, "data-") {
      assert name[0] == 'o' || name[0] == 'd';
    }
  }
}
