/**
 * Document parsing (blog-generator/src/parser.py): the metadata record and its
 * validation, the link-capturing renderer that records every link destination
 * and renders the link with ".html" appended, and `parse_markdown`, which
 * composes the two.
 *
 * The front-matter parser and marko's markdown parser are not part of this
 * model: a document arrives as its metadata mapping and its body as a
 * sequence of inline items. The HTML that marko produces for text and for a
 * link is left uninterpreted (the fields of `Markup`).
 */
module Parser {
  import opened Wrappers
  import opened Paths
  import opened Failures

  /** A date or datetime from the front matter; its contents do not matter here. */
  datatype Stamp = Stamp(iso: string)

  /** A value of the front-matter mapping, by the type the metadata parser gave it. */
  datatype Value =
    | Str(s: string)
    | Bool(b: bool)
    | StrList(items: seq<string>)
    | Time(stamp: Stamp)
    | Null
    | Other

  /** Inline markdown: text, or a link with destination, title ("" when absent) and children. */
  datatype Inline =
    | Text(text: string)
    | Link(dest: string, title: string, children: seq<Inline>)

  /** A document as the front-matter parser splits it: its metadata and its body. */
  datatype Document = Document(meta: map<string, Value>, body: seq<Inline>)

  /** `ParsedFile`: the validated metadata record. */
  datatype ParsedFile = ParsedFile(
    content: seq<Inline>,
    title: string,
    tags: Option<seq<string>>,
    createdAt: Option<Stamp>,
    fileName: Path,
    renderHeader: bool)

  /** `ParsedHtml`: a `ParsedFile` with the rendered body added. */
  datatype ParsedHtml = ParsedHtml(
    content: seq<Inline>,
    title: string,
    tags: Option<seq<string>>,
    createdAt: Option<Stamp>,
    fileName: Path,
    renderHeader: bool,
    html: string)

  /**
   * The parts of marko's HTML renderer the generators rely on, uninterpreted:
   * raw text, the stock link rendering of (destination, title, rendered
   * children), and the two escaping functions.
   */
  datatype Markup = Markup(
    rawText: string -> string,
    link: (string, string, string) -> string,
    escapeHtml: string -> string,
    escapeUrl: string -> string)

  // ---------------------------------------------------------------------------
  // Metadata validation: ParsedFile(file_name=file_name, **post.to_dict())

  predicate TitleOk(meta: map<string, Value>)
  {
    "title" in meta && meta["title"].Str?
  }

  predicate TagsOk(meta: map<string, Value>)
  {
    "tags" !in meta || meta["tags"].StrList? || meta["tags"].Null?
  }

  predicate CreatedAtOk(meta: map<string, Value>)
  {
    "created_at" !in meta || meta["created_at"].Time? || meta["created_at"].Null?
  }

  predicate RenderHeaderOk(meta: map<string, Value>)
  {
    "render_header" !in meta || meta["render_header"].Bool?
  }

  /** The fields that fail validation, in the order the record declares them. */
  function InvalidFields(meta: map<string, Value>): seq<string>
  {
    (if TitleOk(meta) then [] else ["title"])
    + (if TagsOk(meta) then [] else ["tags"])
    + (if CreatedAtOk(meta) then [] else ["created_at"])
    + (if RenderHeaderOk(meta) then [] else ["render_header"])
  }

  /**
   * Builds the metadata record of a document. The body becomes `content`
   * (it overrides any `content` key of the metadata); unknown keys are
   * ignored; absent optional keys take their defaults.
   */
  function Validate(meta: map<string, Value>, body: seq<Inline>, fileName: Path): (r: Result<ParsedFile, Error>)
    ensures r.Ok? <==> "file_name" !in meta && TitleOk(meta) && TagsOk(meta) && CreatedAtOk(meta) && RenderHeaderOk(meta)
    ensures "file_name" in meta ==> r == Err(DuplicateFileName)
    ensures "file_name" !in meta && !TitleOk(meta) ==> r.Err? && r.error.Invalid? && |r.error.fields| > 0 && r.error.fields[0] == "title"
    ensures r.Ok? ==> r.value.title == meta["title"].s && r.value.content == body && r.value.fileName == fileName
    ensures r.Ok? ==> r.value.tags == (if "tags" in meta && meta["tags"].StrList? then Some(meta["tags"].items) else None)
    ensures r.Ok? ==> r.value.createdAt == (if "created_at" in meta && meta["created_at"].Time? then Some(meta["created_at"].stamp) else None)
    ensures r.Ok? ==> r.value.renderHeader == ("render_header" !in meta || meta["render_header"].b)
  {
    if "file_name" in meta then Err(DuplicateFileName)
    else
      var invalid := InvalidFields(meta);
      if invalid != [] then Err(Invalid(invalid))
      else
        Ok(ParsedFile(
          content := body,
          title := meta["title"].s,
          tags := if "tags" in meta && meta["tags"].StrList? then Some(meta["tags"].items) else None,
          createdAt := if "created_at" in meta && meta["created_at"].Time? then Some(meta["created_at"].stamp) else None,
          fileName := fileName,
          renderHeader := if "render_header" in meta then meta["render_header"].b else true))
  }

  /** With only a title given, the optional fields take their defaults: no tags, no date, header shown. */
  lemma ValidateDefaults(title: string, body: seq<Inline>, fileName: Path)
    ensures Validate(map["title" := Str(title)], body, fileName)
         == Ok(ParsedFile(body, title, None, None, fileName, true))
  {
  }

  /** `ParsedHtml.from_parsed_file`: every field of the record is kept and `html` is added. */
  function FromParsedFile(file: ParsedFile, html: string): (r: ParsedHtml)
    ensures ToParsedFile(r) == file && r.html == html
  {
    ParsedHtml(file.content, file.title, file.tags, file.createdAt, file.fileName, file.renderHeader, html)
  }

  /** The `ParsedFile` part of a `ParsedHtml`. */
  function ToParsedFile(page: ParsedHtml): ParsedFile
  {
    ParsedFile(page.content, page.title, page.tags, page.createdAt, page.fileName, page.renderHeader)
  }

  // ---------------------------------------------------------------------------
  // What the link-capturing renderer computes

  /** The destinations of all links, in the order the renderer meets them (a link before its children). */
  function Dests(xs: seq<Inline>): seq<string>
  {
    if xs == [] then [] else DestsOf(xs[0]) + Dests(xs[1..])
  }

  function DestsOf(x: Inline): seq<string>
  {
    match x
    case Text(_) => []
    case Link(dest, _, children) => [dest] + Dests(children)
  }

  /** The HTML of the link-capturing renderer: every link is rendered with ".html" appended to its destination. */
  function Render(m: Markup, xs: seq<Inline>): string
  {
    if xs == [] then "" else RenderOne(m, xs[0]) + Render(m, xs[1..])
  }

  function RenderOne(m: Markup, x: Inline): string
  {
    match x
    case Text(text) => m.rawText(text)
    case Link(dest, title, children) => m.link(dest + ".html", title, Render(m, children))
  }

  /** The HTML of marko's stock renderer, which leaves destinations alone. */
  function PlainRender(m: Markup, xs: seq<Inline>): string
  {
    if xs == [] then "" else PlainRenderOne(m, xs[0]) + PlainRender(m, xs[1..])
  }

  function PlainRenderOne(m: Markup, x: Inline): string
  {
    match x
    case Text(text) => m.rawText(text)
    case Link(dest, title, children) => m.link(dest, title, PlainRender(m, children))
  }

  /** The same content with ".html" appended to every link destination, external ones included. */
  function Rewrite(xs: seq<Inline>): (r: seq<Inline>)
    ensures |r| == |xs|
  {
    if xs == [] then [] else [RewriteOne(xs[0])] + Rewrite(xs[1..])
  }

  function RewriteOne(x: Inline): Inline
  {
    match x
    case Text(_) => x
    case Link(dest, title, children) => Link(dest + ".html", title, Rewrite(children))
  }

  /** Each destination with ".html" appended. */
  function WithHtml(dests: seq<string>): (r: seq<string>)
    ensures |r| == |dests|
    ensures forall i :: 0 <= i < |dests| ==> r[i] == dests[i] + ".html"
  {
    if dests == [] then [] else [dests[0] + ".html"] + WithHtml(dests[1..])
  }

  lemma {:induction false} WithHtmlAppend(a: seq<string>, b: seq<string>)
    ensures WithHtml(a + b) == WithHtml(a) + WithHtml(b)
  {
    if a == [] {
      assert a + b == b;
    } else {
      assert (a + b)[1..] == a[1..] + b;
      WithHtmlAppend(a[1..], b);
    }
  }

  /**
   * The capturing renderer's output is the stock rendering of the rewritten
   * content: no link escapes the rewrite, and the rewrite touches nothing else.
   */
  lemma {:induction false} RenderIsRewrite(m: Markup, xs: seq<Inline>)
    ensures Render(m, xs) == PlainRender(m, Rewrite(xs))
    decreases xs
  {
    if xs != [] {
      var r := Rewrite(xs);
      assert r[0] == RewriteOne(xs[0]) && r[1..] == Rewrite(xs[1..]);
      RenderOneIsRewrite(m, xs[0]);
      RenderIsRewrite(m, xs[1..]);
    }
  }

  lemma {:induction false} RenderOneIsRewrite(m: Markup, x: Inline)
    ensures RenderOne(m, x) == PlainRenderOne(m, RewriteOne(x))
    decreases x
  {
    match x
    case Text(_) =>
    case Link(dest, title, children) =>
      RenderIsRewrite(m, children);
  }

  /** The destinations of the rewritten content are the captured destinations with ".html" appended, one for one and in order. */
  lemma {:induction false} RewriteDests(xs: seq<Inline>)
    ensures Dests(Rewrite(xs)) == WithHtml(Dests(xs))
    decreases xs
  {
    if xs != [] {
      var r := Rewrite(xs);
      assert r[0] == RewriteOne(xs[0]) && r[1..] == Rewrite(xs[1..]);
      RewriteOneDests(xs[0]);
      RewriteDests(xs[1..]);
      WithHtmlAppend(DestsOf(xs[0]), Dests(xs[1..]));
    }
  }

  lemma {:induction false} RewriteOneDests(x: Inline)
    ensures DestsOf(RewriteOne(x)) == WithHtml(DestsOf(x))
    decreases x
  {
    match x
    case Text(_) =>
    case Link(dest, title, children) =>
      RewriteDests(children);
      WithHtmlAppend([dest], Dests(children));
  }

  /** Destinations of consecutive content are captured consecutively. */
  lemma {:induction false} DestsAppend(a: seq<Inline>, b: seq<Inline>)
    ensures Dests(a + b) == Dests(a) + Dests(b)
  {
    if a == [] {
      assert a + b == b;
    } else {
      assert (a + b)[0] == a[0] && (a + b)[1..] == a[1..] + b;
      DestsAppend(a[1..], b);
    }
  }

  // ---------------------------------------------------------------------------
  // The renderer with its capture list: create_renderer / create_markdown

  /**
   * A markdown converter together with the list its link renderer appends
   * to (`parsed_links`, captured by the renderer's closure).
   */
  class LinkCapture {
    const markup: Markup
    var links: seq<string>

    /** `create_markdown`: a new converter with a new, empty capture list. */
    constructor (markup: Markup)
      ensures this.markup == markup && links == []
    {
      this.markup := markup;
      links := [];
    }

    /**
     * `render_link`: records the original destination, then renders a copy
     * of the element whose destination has ".html" appended. The element
     * itself is a value and stays as it was.
     */
    method RenderLink(element: Inline) returns (html: string)
      requires element.Link?
      modifies this
      ensures links == old(links) + DestsOf(element)
      ensures html == RenderOne(markup, element)
      decreases element
    {
      ghost var before := links;
      links := links + [element.dest];
      var copy := element.(dest := element.dest + ".html");
      var body := RenderChildren(copy.children);
      html := markup.link(copy.dest, copy.title, body);
      assert links == before + ([element.dest] + Dests(element.children));
    }

    /** Renders a sequence of inline items in order; used by `convert` and for a link's children. */
    method RenderChildren(xs: seq<Inline>) returns (html: string)
      modifies this
      ensures links == old(links) + Dests(xs)
      ensures html == Render(markup, xs)
      decreases xs
    {
      if xs == [] {
        html := "";
      } else {
        ghost var before := links;
        var first: string;
        if xs[0].Text? {
          first := markup.rawText(xs[0].text);
        } else {
          first := RenderLink(xs[0]);
        }
        assert first == RenderOne(markup, xs[0]) && links == before + DestsOf(xs[0]);
        var rest := RenderChildren(xs[1..]);
        html := first + rest;
        assert links == before + (DestsOf(xs[0]) + Dests(xs[1..]));
      }
    }
  }

  // ---------------------------------------------------------------------------
  // parse_markdown

  /**
   * What `parse_markdown` returns for a file of the filesystem `files`: the
   * record with its rendered body, and the destinations captured while
   * rendering that body.
   */
  function Parsed(files: map<Path, Document>, m: Markup, fileName: Path): (r: Result<(ParsedHtml, seq<string>), Error>)
    ensures fileName !in files ==> r == Err(FileNotFound(fileName))
    ensures fileName in files && Validate(files[fileName].meta, files[fileName].body, fileName).Err? ==>
      r == Err(Validate(files[fileName].meta, files[fileName].body, fileName).error)
  {
    if fileName !in files then Err(FileNotFound(fileName))
    else
      var doc := files[fileName];
      match Validate(doc.meta, doc.body, fileName)
      case Err(e) => Err(e)
      case Ok(file) => Ok((FromParsedFile(file, Render(m, file.content)), Dests(file.content)))
  }

  /**
   * The parse of a document fails exactly on a missing file or invalid
   * metadata; otherwise its links are the destinations of its body in order,
   * and its HTML is the stock rendering of the body with each of those
   * destinations rewritten to end in ".html".
   */
  lemma ParsedLinks(files: map<Path, Document>, m: Markup, fileName: Path)
    ensures Parsed(files, m, fileName).Ok? <==>
      fileName in files && Validate(files[fileName].meta, files[fileName].body, fileName).Ok?
    ensures Parsed(files, m, fileName).Ok? ==>
      var (page, links) := Parsed(files, m, fileName).value;
      && links == Dests(files[fileName].body)
      && page.html == PlainRender(m, Rewrite(page.content))
      && Dests(Rewrite(page.content)) == WithHtml(links)
      && ToParsedFile(page) == Validate(files[fileName].meta, files[fileName].body, fileName).value
  {
    if Parsed(files, m, fileName).Ok? {
      var body := files[fileName].body;
      RenderIsRewrite(m, body);
      RewriteDests(body);
    }
  }

  /**
   * `parse_markdown`: reads the document, validates its metadata, converts
   * its body with a freshly created converter and returns the record and
   * that converter's capture list.
   */
  method ParseMarkdown(files: map<Path, Document>, m: Markup, fileName: Path) returns (r: Result<(ParsedHtml, seq<string>), Error>)
    ensures r == Parsed(files, m, fileName)
  {
    if fileName !in files {
      return Err(FileNotFound(fileName));
    }
    var doc := files[fileName];
    var parsedFile := Validate(doc.meta, doc.body, fileName);
    if parsedFile.Err? {
      return Err(parsedFile.error);
    }
    var markdown := new LinkCapture(m);
    var html := markdown.RenderChildren(parsedFile.value.content);
    assert markdown.links == Dests(parsedFile.value.content);
    r := Ok((FromParsedFile(parsedFile.value, html), markdown.links));
  }
}
