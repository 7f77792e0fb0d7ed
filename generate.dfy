/**
 * Link resolution, page assembly and output naming of the link-driven
 * generator (blog-generator/src/generate.py). The traversal that drives them
 * is in module Traversal.
 *
 * The filesystem is the set of paths that exist; the three templates are
 * functions of their named slots.
 */
module Generate {
  import opened Wrappers
  import opened Strings
  import opened Paths
  import opened Failures
  import opened Parser

  /** The module-level `base_path`, against which link targets are checked. */
  const BasePath: Path := ".."

  /** The module-level `output_path`. */
  const OutputPath: Path := "../docs"

  /** A link the resolver skips: its destination starts with "https://". */
  predicate IsExternal(link: string)
  {
    "https://" <= link
  }

  // ---------------------------------------------------------------------------
  // get_linkable_files

  /**
   * The markdown file a local link names: `Path(link).with_suffix(".md")`,
   * None where `with_suffix` raises because the normalised link has no name.
   */
  function Target(link: string): Option<Path>
  {
    WithSuffix(Normalize(link), ".md")
  }

  /** A local link the resolver accepts: it names a markdown file that exists under BasePath. */
  predicate Resolvable(link: string, existing: set<Path>)
  {
    Target(link).Some? && Join(BasePath, Target(link).value) in existing
  }

  /**
   * How the resolver treats one captured link: Ok(None) when it skips an
   * external link, Ok(Some(p)) with p the normalised link with its suffix
   * replaced by ".md" when that markdown file exists under BasePath, and the
   * error it raises otherwise (a link without a name, a missing file).
   */
  function Resolve(link: string, existing: set<Path>): (r: Result<Option<Path>, Error>)
    ensures r == Ok(None) <==> IsExternal(link)
    ensures !IsExternal(link) ==> (r.Ok? <==> Resolvable(link, existing))
    ensures !IsExternal(link) && Name(Normalize(link)) == "" ==> r == Err(EmptyName(link))
    ensures !IsExternal(link) && Name(Normalize(link)) != "" && !Resolvable(link, existing) ==>
      r == Err(Dangling(Join(BasePath, Target(link).value)))
    ensures r.Ok? && r.value.Some? ==> Target(link) == Some(r.value.value) && Join(BasePath, r.value.value) in existing
  {
    if IsExternal(link) then Ok(None)
    else
      match Target(link)
      case None => Err(EmptyName(link))
      case Some(p) =>
        if Join(BasePath, p) !in existing then Err(Dangling(Join(BasePath, p)))
        else Ok(Some(p))
  }

  /** The entries a resolved link contributes: none or one. */
  function Entries(found: Option<Path>): seq<Path>
  {
    match found
    case None => []
    case Some(p) => [p]
  }

  /** A rule for treating one captured link, as `Resolve` is for a given filesystem. */
  type Resolver = string -> Result<Option<Path>, Error>

  /** The rule of `get_linkable_files` against the paths that exist. */
  function ResolverIn(existing: set<Path>): Resolver
  {
    link => Resolve(link, existing)
  }

  /**
   * The links treated one after the other by `resolve`, the first error
   * aborting the whole call: the shape of the loop in `get_linkable_files`.
   */
  function ResolveAll(resolve: Resolver, links: seq<string>): Result<seq<Path>, Error>
  {
    if links == [] then Ok([])
    else
      match resolve(links[0])
      case Err(e) => Err(e)
      case Ok(found) =>
        match ResolveAll(resolve, links[1..])
        case Err(e) => Err(e)
        case Ok(rest) => Ok(Entries(found) + rest)
  }

  /** Every path `ResolveAll` returns against the filesystem exists there, and there is at most one per link. */
  lemma {:induction false} ResolvedExist(links: seq<string>, existing: set<Path>)
    ensures ResolveAll(ResolverIn(existing), links).Ok? ==>
      && |ResolveAll(ResolverIn(existing), links).value| <= |links|
      && forall p :: p in ResolveAll(ResolverIn(existing), links).value ==> Join(BasePath, p) in existing
  {
    if links != [] {
      ResolvedExist(links[1..], existing);
    }
  }

  /**
   * What `get_linkable_files` returns for the captured links of one document,
   * given the paths that exist.
   */
  function Linkable(links: seq<string>, existing: set<Path>): (r: Result<seq<Path>, Error>)
    ensures r.Ok? ==> |r.value| <= |links|
    ensures r.Ok? ==> forall p :: p in r.value ==> Join(BasePath, p) in existing
  {
    ResolvedExist(links, existing);
    ResolveAll(ResolverIn(existing), links)
  }

  /** The links the resolver does not skip, in order. */
  function LocalLinks(links: seq<string>): (r: seq<string>)
    ensures forall l :: l in r <==> l in links && !IsExternal(l)
  {
    if links == [] then []
    else if IsExternal(links[0]) then LocalLinks(links[1..])
    else [links[0]] + LocalLinks(links[1..])
  }

  /** Resolving two link lists one after the other: the first failure wins, otherwise the entries are joined. */
  function Then(a: Result<seq<Path>, Error>, b: Result<seq<Path>, Error>): Result<seq<Path>, Error>
  {
    match a
    case Err(e) => Err(e)
    case Ok(x) =>
      match b
      case Err(e) => Err(e)
      case Ok(y) => Ok(x + y)
  }

  lemma {:induction false} ResolveAllAppend(resolve: Resolver, a: seq<string>, b: seq<string>)
    ensures ResolveAll(resolve, a + b) == Then(ResolveAll(resolve, a), ResolveAll(resolve, b))
  {
    if a == [] {
      assert a + b == b;
      if ResolveAll(resolve, b).Ok? {
        assert [] + ResolveAll(resolve, b).value == ResolveAll(resolve, b).value;
      }
    } else {
      assert (a + b)[0] == a[0] && (a + b)[1..] == a[1..] + b;
      ResolveAllAppend(resolve, a[1..], b);
      var first := resolve(a[0]);
      if first.Ok? && ResolveAll(resolve, a[1..]).Ok? && ResolveAll(resolve, b).Ok? {
        var x, y := ResolveAll(resolve, a[1..]).value, ResolveAll(resolve, b).value;
        assert Entries(first.value) + (x + y) == (Entries(first.value) + x) + y;
      }
    }
  }

  /** The call succeeds exactly when no single link fails. */
  lemma {:induction false} ResolveAllOk(resolve: Resolver, links: seq<string>)
    ensures ResolveAll(resolve, links).Ok? <==> forall i :: 0 <= i < |links| ==> resolve(links[i]).Ok?
  {
    if links != [] {
      ResolveAllOk(resolve, links[1..]);
      assert forall i :: 0 < i < |links| ==> links[i] == links[1..][i - 1];
    }
  }

  /** On failure the error is that of the first link that fails on its own. */
  lemma {:induction false} ResolveAllFirstError(resolve: Resolver, links: seq<string>)
    requires ResolveAll(resolve, links).Err?
    ensures exists i :: 0 <= i < |links| && resolve(links[i]) == Err(ResolveAll(resolve, links).error)
                     && forall j :: 0 <= j < i ==> resolve(links[j]).Ok?
  {
    if resolve(links[0]).Ok? {
      ResolveAllFirstError(resolve, links[1..]);
      var k :| 0 <= k < |links[1..]| && resolve(links[1..][k]) == Err(ResolveAll(resolve, links[1..]).error)
               && forall j :: 0 <= j < k ==> resolve(links[1..][j]).Ok?;
      assert forall j :: 0 < j <= k ==> links[j] == links[1..][j - 1];
      assert resolve(links[k + 1]) == Err(ResolveAll(resolve, links).error);
    } else {
      assert resolve(links[0]) == Err(ResolveAll(resolve, links).error);
    }
  }

  /** A failure on a prefix of the links is the failure of the whole call. */
  lemma FailureIsFinal(resolve: Resolver, links: seq<string>, k: nat)
    requires k <= |links| && ResolveAll(resolve, links[..k]).Err?
    ensures ResolveAll(resolve, links) == ResolveAll(resolve, links[..k])
  {
    var failure := ResolveAll(resolve, links[..k]);
    ResolveAllAppend(resolve, links[..k], links[k..]);
    assert Then(failure, ResolveAll(resolve, links[k..])) == failure;
    assert links[..k] + links[k..] == links;
  }

  lemma ResolveAllSingle(resolve: Resolver, link: string)
    ensures ResolveAll(resolve, [link]) ==
      match resolve(link)
      case Err(e) => Err(e)
      case Ok(found) => Ok(Entries(found))
  {
    assert [link][1..] == [];
    if resolve(link).Ok? {
      assert Entries(resolve(link).value) + [] == Entries(resolve(link).value);
    }
  }

  /**
   * On success against the filesystem the result has one entry per local
   * link, the markdown file it names, in the links' order (duplicates kept).
   */
  lemma {:induction false} LinkableEntries(links: seq<string>, existing: set<Path>)
    requires Linkable(links, existing).Ok?
    ensures |Linkable(links, existing).value| == |LocalLinks(links)|
    ensures forall i :: 0 <= i < |LocalLinks(links)| ==>
      Target(LocalLinks(links)[i]) == Some(Linkable(links, existing).value[i])
  {
    if links != [] {
      var found := LinkableCons(links, existing);
      LinkableEntries(links[1..], existing);
      var rest := Linkable(links[1..], existing).value;
      if IsExternal(links[0]) {
        assert Linkable(links, existing).value == rest;
        assert LocalLinks(links) == LocalLinks(links[1..]);
      } else {
        var entries, local := Linkable(links, existing).value, LocalLinks(links);
        assert entries == [found.value] + rest;
        assert local == [links[0]] + LocalLinks(links[1..]);
        forall i | 0 <= i < |local|
          ensures Target(local[i]) == Some(entries[i])
        {
          if i > 0 {
            assert local[i] == LocalLinks(links[1..])[i - 1] && entries[i] == rest[i - 1];
          }
        }
      }
    }
  }

  /** A successful call on a non-empty list: the first link's entries, then those of the rest. */
  lemma LinkableCons(links: seq<string>, existing: set<Path>) returns (found: Option<Path>)
    requires links != [] && Linkable(links, existing).Ok?
    ensures Resolve(links[0], existing) == Ok(found) && Linkable(links[1..], existing).Ok?
    ensures Linkable(links, existing).value == Entries(found) + Linkable(links[1..], existing).value
    ensures found.None? <==> IsExternal(links[0])
    ensures found.Some? ==> Target(links[0]) == found
  {
    var resolve := ResolverIn(existing);
    assert resolve(links[0]) == Resolve(links[0], existing);
    found := Resolve(links[0], existing).value;
  }

  /** The call succeeds exactly when every local link names a markdown file that exists. */
  lemma LinkableOkIff(links: seq<string>, existing: set<Path>)
    ensures Linkable(links, existing).Ok? <==> forall l :: l in LocalLinks(links) ==> Resolvable(l, existing)
  {
    var resolve := ResolverIn(existing);
    ResolveAllOk(resolve, links);
    assert forall i :: 0 <= i < |links| ==> resolve(links[i]) == Resolve(links[i], existing);
  }

  /** `get_linkable_files`. */
  method GetLinkableFiles(parsedLinks: seq<string>, existing: set<Path>) returns (r: Result<seq<Path>, Error>)
    ensures r == Linkable(parsedLinks, existing)
  {
    assert ValidSuffix(".md");
    ghost var resolve := ResolverIn(existing);
    var linkableFiles: seq<Path> := [];
    for i := 0 to |parsedLinks|
      invariant ResolveAll(resolve, parsedLinks[..i]) == Ok(linkableFiles)
    {
      var parsedLink := parsedLinks[i];
      assert parsedLinks[..i + 1] == parsedLinks[..i] + [parsedLink];
      ResolveAllAppend(resolve, parsedLinks[..i], [parsedLink]);
      ResolveAllSingle(resolve, parsedLink);
      assert resolve(parsedLink) == Resolve(parsedLink, existing);
      if !IsExternal(parsedLink) {
        var parsedPath := WithSuffix(Normalize(parsedLink), ".md");
        if parsedPath.None? {
          FailureIsFinal(resolve, parsedLinks, i + 1);
          return Err(EmptyName(parsedLink));
        }
        var absoluteParsedPath := Join(BasePath, parsedPath.value);
        if absoluteParsedPath !in existing {
          FailureIsFinal(resolve, parsedLinks, i + 1);
          return Err(Dangling(absoluteParsedPath));
        }
        linkableFiles := linkableFiles + [parsedPath.value];
      } else {
        assert linkableFiles + [] == linkableFiles;
      }
    }
    assert parsedLinks[..|parsedLinks|] == parsedLinks;
    r := Ok(linkableFiles);
  }

  // ---------------------------------------------------------------------------
  // _render_header_html and _render_html

  /** The three templates, as functions of their named slots. */
  datatype Templates = Templates(
    tag: string -> string,                          // tag_template.format(tag=...)
    header: (string, Option<Stamp>) -> string,      // header_template.format(tags=..., created_at=...)
    main: (string, string) -> string)               // main_template.format(content=..., title=...)

  /** `parsed_html.tags or []`: empty exactly when the tags are absent or empty, otherwise the tags themselves. */
  function TagsOrEmpty(tags: Option<seq<string>>): (r: seq<string>)
    ensures r == [] <==> tags.None? || tags.value == []
    ensures r != [] ==> tags == Some(r)
  {
    match tags
    case None => []
    case Some(ts) => ts
  }

  /** One tag fragment per tag, in the tags' order. */
  function TagFragments(t: Templates, tags: seq<string>): (r: seq<string>)
    ensures |r| == |tags|
    ensures forall i :: 0 <= i < |tags| ==> r[i] == t.tag(tags[i])
  {
    if tags == [] then [] else [t.tag(tags[0])] + TagFragments(t, tags[1..])
  }

  /** `_render_header_html`: empty when the page turns the header off, whatever its tags. */
  function RenderHeaderHtml(t: Templates, page: ParsedHtml): (r: string)
    ensures !page.renderHeader ==> r == ""
    ensures page.renderHeader ==> r == t.header(Concat(TagFragments(t, TagsOrEmpty(page.tags))), page.createdAt)
  {
    if !page.renderHeader then ""
    else
      var tagHtmlList := TagFragments(t, TagsOrEmpty(page.tags));
      t.header(Concat(tagHtmlList), page.createdAt)
  }

  /** Absent tags render like an empty tag list. */
  lemma NoTagsIsEmptyTags(t: Templates, page: ParsedHtml)
    ensures RenderHeaderHtml(t, page.(tags := None)) == RenderHeaderHtml(t, page.(tags := Some([])))
  {
  }

  /** The tags slot of the header holds the fragments of the tags in order: tags split in two give their fragments joined. */
  lemma {:induction false} TagFragmentsAppend(t: Templates, a: seq<string>, b: seq<string>)
    ensures Concat(TagFragments(t, a + b)) == Concat(TagFragments(t, a)) + Concat(TagFragments(t, b))
  {
    var ab, fa, fb := TagFragments(t, a + b), TagFragments(t, a), TagFragments(t, b);
    forall i | 0 <= i < |ab| ensures ab[i] == (fa + fb)[i] {
      if i < |a| {
        assert (a + b)[i] == a[i];
      } else {
        assert (a + b)[i] == b[i - |a|];
      }
    }
    assert ab == fa + fb;
    ConcatAppend(TagFragments(t, a), TagFragments(t, b));
  }

  /** `_render_html`: the main template gets the title and, as content, the header followed by the body. */
  function RenderHtml(t: Templates, page: ParsedHtml): (r: string)
    ensures !page.renderHeader ==> r == t.main(page.html, page.title)
    ensures page.renderHeader ==> r == t.main(RenderHeaderHtml(t, page) + page.html, page.title)
  {
    var headerHtml := RenderHeaderHtml(t, page);
    var contentHtml := headerHtml + page.html;
    assert !page.renderHeader ==> contentHtml == page.html;
    t.main(contentHtml, page.title)
  }

  // ---------------------------------------------------------------------------
  // save_output: where a page is written

  /** The file a page is written to: its path with the ".html" suffix, under OutputPath; None where with_suffix raises. */
  function OutputFile(fileName: Path): (r: Option<Path>)
    ensures r.Some? <==> Name(fileName) != ""
  {
    match WithSuffix(fileName, ".html")
    case None => None
    case Some(htmlFileName) => Some(Join(OutputPath, htmlFileName))
  }

  /**
   * A page reached through a local link whose normalised form has a name
   * without a suffix is written under OutputPath to that normalised link
   * followed by ".html".
   */
  lemma OutputFileOfLink(link: string)
    requires Name(Normalize(link)) != "" && Suffix(Normalize(link)) == ""
    ensures Target(link).Some?
    ensures OutputFile(Target(link).value) == Some(Join(OutputPath, Normalize(link) + ".html"))
  {
    WithSuffixTwice(Normalize(link), ".md", ".html");
    WithSuffixAppends(Normalize(link), ".html");
  }
}
