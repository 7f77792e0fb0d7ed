# Blog generator: the link-driven page pipeline, in Dafny

This project models the core of a small static blog generator written in Python.

The generator starts from an index markdown document and renders it. While it renders, it captures the destination of every link. Each captured link that is not `https://` names a further markdown document: that document must exist, and it is rendered in turn. The result is a dictionary from file name to finished HTML page.

The model covers three source files:

- `blog-generator/src/parser.py`:
  - metadata validation into the `ParsedFile` and `ParsedHtml` records, with their defaults;
  - the link-capturing renderer. Every link appends its original destination to a capture list. The link itself is rendered from a copy whose destination has `.html` appended;
  - the fresh capture list each `create_markdown` call makes;
  - `parse_markdown`.
- `blog-generator/src/generate.py`:
  - `get_linkable_files`;
  - header and page assembly (`_render_header_html`, `_render_html`);
  - the `render_html_pages` worklist loop;
  - the output path of `save_output`.
- `blog-generator/generate.py`, the older single-file generator:
  - its link renderer;
  - `_generate_html`;
  - `string_to_stable_color`;
  - the output naming of `save_output`.

Modules:

- `Wrappers`: `Option` and `Result`.
- `Strings`: last index of a character; concatenation of a list of strings (`"".join`).
- `Paths`: the `pathlib` operations the code relies on. These are `Path(s)` (`Normalize`), `name`, `suffix`, `with_suffix` and `/` (`Join`), on POSIX string paths. `Normalize` drops empty and "." components and keeps a leading '/'. The current directory, which `pathlib` prints as ".", is the empty string here, and like it has an empty name.
- `Failures`: the exceptions the pipeline can raise, as an `Error` datatype. Errors are returned, not thrown.
- `Parser`: `parser.py`.
  - The front-matter metadata is a map from keys to already-typed values.
  - The markdown body is a sequence of inline items: text, or a link with destination, title and children.
  - marko's conversion is a `Markup` value: uninterpreted functions for text, for the stock link renderer and for the two escapes.
  - The converter with its capture list is the class `LinkCapture`. Its field `links` grows as `RenderLink` and `RenderChildren` run.
- `Generate`: `get_linkable_files`, page assembly and output naming.
  - `ResolveAll` is the shape of the resolution loop over any per-link rule. `Resolve` is the rule the code applies, and `Linkable` is `ResolveAll` with it.
  - A local link names the markdown file `Target(link)`: the link normalised by `Path`, with its suffix replaced by ".md".
  - `GetLinkableFiles` is the loop itself, proved against `Linkable`.
  - The filesystem is the set of paths that exist.
  - The templates are uninterpreted functions of their named slots.
- `Traversal`: `render_html_pages`.
  - `Step` and `Run` give the loop's passes as functions. They are stated over any pass function; `Pass` is the one built from `parse_markdown`, `get_linkable_files` and `_render_html`.
  - `RenderHtmlPages` is the loop itself. Its result is shown to be where `Run` ends.
- `Cycles`: what the loop does on link graphs with cycles and diamonds.
- `LegacyGenerate`: `blog-generator/generate.py`.

The loop in `render_html_pages` checks only the pending list before it pushes a target (`blog-generator/src/generate.py:74`). It never consults the dictionary of rendered pages. The model keeps this behaviour:

- A document that is reached again after it was rendered is rendered again (`Cycles.DiamondRendersTwice`).
- Two documents that link to each other keep the loop going for ever (`Cycles.CycleNeverEnds`).

A loop that need not end cannot be verified as a terminating method. `RenderHtmlPages` therefore takes a ghost rank on file names that every link lowers, which means an acyclic link graph. It measures termination by the passes the pending documents can still cause. `Cycles.CycleIsNotRanked` shows that no such rank exists for a two-document cycle.

Three behaviours of the code matter here; the model keeps them:

- The traversal has no check against rendered documents. Documents are not rendered at most once, and cycles are not safe.
- The error for a dangling link names only the missing file, not the document that links to it. `Failures.Error.Dangling` carries only the path.
- There is no rendered page title in the header and no `enable_comments` field. An `enable_comments` key is ignored like any other unknown key.

## Model

| member | source | states |
|---|---|---|
| Parser.Validate | blog-generator/src/parser.py:14-20 | The record is built exactly when `file_name` is not a metadata key and the metadata has these types: `title` a string, `tags` a string list or absent, `created_at` a date or absent, `render_header` a boolean or absent. A `file_name` key is a duplicate-argument error. A missing or non-string title is a validation error that lists `title` first. The fields come from the metadata, with defaults `tags` None, `created_at` None and `render_header` True. |
| Parser.ValidateDefaults | blog-generator/src/parser.py:14-20 | With only a title given, the record has no tags, no date and the header on. |
| Parser.FromParsedFile | blog-generator/src/parser.py:27-28 | `from_parsed_file` keeps every `ParsedFile` field unchanged and adds `html`. |
| Parser.LinkCapture.constructor | blog-generator/src/parser.py:43-51 | Every new converter starts with an empty capture list, so no links carry over between documents. |
| Parser.LinkCapture.RenderLink | blog-generator/src/parser.py:33-38 | Rendering a link appends its original destination to the capture list, followed by those of its children. Its HTML is the stock rendering of a copy whose destination has ".html" appended. The element passed in is a value and is not changed. |
| Parser.LinkCapture.RenderChildren | blog-generator/src/parser.py:31-40 | Rendering content grows the capture list by exactly the content's destinations, in render order with duplicates kept. The HTML is that of the capturing renderer. |
| Parser.RenderIsRewrite | blog-generator/src/parser.py:36-38 | The capturing renderer's HTML equals the stock rendering of the content with ".html" appended to every link destination, `https://` links included. |
| Parser.RewriteDests | blog-generator/src/parser.py:36-38 | The destinations the rendered HTML uses are the captured destinations with ".html" appended, one for one and in order. |
| Parser.DestsAppend | blog-generator/src/parser.py:33-34 | The destinations of consecutive content are captured consecutively. |
| Parser.Parsed | blog-generator/src/parser.py:54-57 | A missing file fails with a file-not-found error naming that path. Metadata that fails validation fails with the validation error. |
| Parser.ParsedLinks | blog-generator/src/parser.py:54-60 | Parsing fails exactly when the file is missing or its metadata is invalid. Otherwise the links are the body's destinations in order, the HTML is the stock rendering of the rewritten body, and the record is the validated metadata. |
| Parser.ParseMarkdown | blog-generator/src/parser.py:54-60 | `parse_markdown` (file lookup, validation, a fresh converter, conversion of `content`) returns what `Parsed` specifies, including exactly the links captured during the conversion. |
| Generate.Resolve | blog-generator/src/generate.py:26-38 | A link is skipped exactly when it starts with "https://". Any other link resolves exactly when its normalised form has a name and that name with ".md" exists under the module's base path; the result is then that `Path(link).with_suffix(".md")`. A link whose normalised form has no name fails with an empty-name error. A link whose file is missing fails with a dangling-link error naming `base_path / Path(link).with_suffix(".md")`. |
| Generate.Linkable | blog-generator/src/generate.py:23-40 | On success there is at most one entry per link, and every returned path P has `base_path / P` existing. |
| Generate.LinkableOkIff | blog-generator/src/generate.py:26-38 | The whole call succeeds if and only if every link that does not start with "https://" names a markdown file that exists under the base path. |
| Generate.LocalLinks | blog-generator/src/generate.py:29-31 | The links that are kept are exactly those that do not start with "https://". |
| Generate.ResolveAllOk | blog-generator/src/generate.py:26-38 | The loop succeeds if and only if every link resolves on its own. |
| Generate.LinkableEntries | blog-generator/src/generate.py:26-38 | On success, the i-th entry is `Path(link).with_suffix(".md")` of the i-th kept link: in input order, duplicates kept, no entry for a `https://` link. |
| Generate.ResolveAllFirstError | blog-generator/src/generate.py:33-36 | On failure the error is that of the first link that fails, and every earlier link resolves. |
| Generate.ResolveAllAppend | blog-generator/src/generate.py:26-38 | Resolving two link lists in a row joins their entries, and the first failure wins. |
| Generate.FailureIsFinal | blog-generator/src/generate.py:35-36 | A failure on a prefix of the links is the failure of the whole call: nothing after it is looked at. |
| Generate.GetLinkableFiles | blog-generator/src/generate.py:23-40 | The loop with its early raise returns what `Linkable` specifies. |
| Generate.TagsOrEmpty | blog-generator/src/generate.py:47 | `tags or []` is empty exactly when the tags are absent or empty, and is otherwise the tags themselves. |
| Generate.TagFragments | blog-generator/src/generate.py:47 | There is one tag fragment per tag, and the i-th fragment is the tag template applied to the i-th tag. |
| Generate.NoTagsIsEmptyTags | blog-generator/src/generate.py:47 | `tags = None` gives the same header as an empty tag list. |
| Generate.TagFragmentsAppend | blog-generator/src/generate.py:47-49 | The tags slot is the fragments concatenated in tag order: splitting the tags splits the slot. |
| Generate.RenderHeaderHtml | blog-generator/src/generate.py:43-52 | The header is "" whenever `render_header` is false, whatever the tags. Otherwise it is the header template of the joined tag fragments and `created_at`. |
| Generate.RenderHtml | blog-generator/src/generate.py:55-59 | The main template gets content = header followed by the body HTML, and the record's title. With `render_header` false, the content is exactly the body HTML. |
| Generate.OutputFile | blog-generator/src/generate.py:82-84 | An output file exists exactly when `with_suffix` does not raise, which is when the name is non-empty. |
| Generate.OutputFileOfLink | blog-generator/src/generate.py:82-84 | For a link whose normalised form has a name without a suffix, the page it leads to is written to `output_path / (Path(link) + ".html")`. As a string this is the link's normalised destination followed by ".html", the same ending the capturing renderer writes into the link's href. |
| Paths.WithSuffix | blog-generator/src/generate.py:33 | `with_suffix` succeeds exactly for a non-empty name. It keeps the directory, and the new name is the stem followed by the suffix. |
| Paths.Name | blog-generator/src/generate.py:33 | The name has no '/', and the directory followed by the name is the path. |
| Paths.Suffix | blog-generator/src/generate.py:33 | The suffix is what follows the stem in the name: stem and suffix together are the name. |
| Paths.SuffixStart | blog-generator/src/generate.py:33 | The suffix starts at the last '.' of the name, provided that '.' is neither the first nor the last character. |
| Paths.SuffixOfWithSuffix | blog-generator/src/generate.py:33 | After a simple suffix such as ".md" is attached, it is the path's suffix. |
| Paths.WithSuffixTwice | blog-generator/src/generate.py:83 | Attaching ".md" and then ".html" is the same as attaching ".html" directly. |
| Paths.WithSuffixAppends | blog-generator/src/generate.py:33 | A name without a suffix gets the new suffix appended verbatim. |
| Paths.JoinEnds | blog-generator/src/generate.py:33 | `dir / rel` ends with rel and has the name of rel. An absolute rel is the result. A relative rel stays as it is under the current directory, gets a single leading '/' under the root, and otherwise follows `dir/`, with exactly `|dir| + 1 + |rel|` characters. |
| Paths.Split | blog-generator/src/generate.py:27 | There is at least one piece, and no piece holds a '/'. |
| Paths.SplitJoin | blog-generator/src/generate.py:27 | Splitting '/'-free pieces joined by '/' gives the pieces back. |
| Paths.Kept | blog-generator/src/generate.py:27 | A piece is kept exactly when it occurs in the input and is neither empty nor "."; every kept piece is such a piece. |
| Paths.KeptSingle | blog-generator/src/generate.py:27 | A single piece is kept exactly when it is neither empty nor ".". |
| Paths.KeptAppend | blog-generator/src/generate.py:27 | Pieces are kept or dropped one by one, in order: keeping the pieces of two lists in a row gives the two results in a row. |
| Paths.Normalize | blog-generator/src/generate.py:27 | `Path(s)` starts with '/' exactly when s does. |
| Paths.NormalizeSplit | blog-generator/src/generate.py:27 | For any s with at least one kept piece, the pieces of `Path(s)` are exactly the pieces of s that are neither empty nor ".", in order, after one empty piece when s starts with '/'. |
| Paths.NormalizeTwice | blog-generator/src/generate.py:27 | `Path(Path(s))` is `Path(s)`. |
| Paths.NormalizeComponent | blog-generator/src/generate.py:27 | A single component other than "." is its own normal form. |
| Paths.NormalizeDotPrefix | blog-generator/src/generate.py:27 | `Path("./c")` is `c`. |
| Paths.NormalizeTrailingSlash | blog-generator/src/generate.py:27 | `Path("c/")` is `c`. |
| Paths.NormalizeDoubleSlash | blog-generator/src/generate.py:27 | `Path("c//d")` is `c/d`. |
| Paths.NormalizeDot | blog-generator/src/generate.py:27 | `Path(".")` has an empty name, so `with_suffix` raises on it. |
| Strings.Concat | blog-generator/src/generate.py:49 | Read from the back, the join of a non-empty list is the join of all but the last part followed by the last part. |
| Strings.ConcatAppend | blog-generator/src/generate.py:49 | Joining two lists of strings gives the two joins concatenated. |
| Traversal.PassOutcome | blog-generator/src/generate.py:67-77 | A pass succeeds only on a document that exists under the base and parses. Its targets then exist under the module's base path, and its page is `_render_html` of its own parse. |
| Traversal.StepOutcome | blog-generator/src/generate.py:66-77 | One step fails exactly when the pass on the popped name fails. Otherwise exactly that name is added to the rendered pages, and the names below it stay pending in order. |
| Traversal.RunKeepsIndex | blog-generator/src/generate.py:62-77 | After any number of passes the index is pending or rendered. |
| Traversal.Enqueue | blog-generator/src/generate.py:71-75 | The inner loop keeps the pending list as a prefix. Afterwards a name is pending exactly when it was pending before or is a target. A list without duplicates stays without duplicates. |
| Traversal.PushTargets | blog-generator/src/generate.py:71-75 | The inner `for` loop computes what `Enqueue` specifies. |
| Traversal.InitialInvariant | blog-generator/src/generate.py:63-64 | The starting state, with the index pending and nothing rendered, satisfies the loop invariant. |
| Traversal.StepKeepsInvariant | blog-generator/src/generate.py:66-77 | One pass keeps the invariant. The invariant has five parts: no duplicates pending; the index pending or rendered; every rendered page is `_render_html` of its document's parse; every target of a rendered document is rendered or pending; every pending or rendered name is the index or a target of a rendered document. |
| Traversal.RunKeepsInvariant | blog-generator/src/generate.py:62-77 | Every state the loop reaches satisfies the invariant. |
| Traversal.StepDecreases | blog-generator/src/generate.py:66-77 | On an acyclic link graph, every pass lowers the number of passes still to come. |
| Traversal.FinishedState | blog-generator/src/generate.py:66-79 | When nothing is pending, four things hold: the index is rendered; every rendered page is its document's page; every target of a rendered document is rendered; every rendered document is the index or a target of one. |
| Traversal.RenderHtmlPages | blog-generator/src/generate.py:62-79 | On an acyclic link graph, success returns a dictionary that is complete in that sense, and it is the state where the passes of `Run` end. A failure is the error some pass raises. |
| Cycles.PlainName | blog-generator/src/generate.py:27-33 | A link destination without '/' or '.' is its own normal form and names itself plus ".md". |
| Cycles.OnePending | blog-generator/src/generate.py:66-75 | With two documents that link only to each other, once one of them is alone pending, after any number of further passes exactly one of the two is alone pending. |
| Cycles.NeverEmpty | blog-generator/src/generate.py:66-75 | With two documents that link to each other, the pending list is never empty, however many passes run. |
| Cycles.CycleNeverEnds | blog-generator/src/generate.py:66-75 | On a concrete site of two mutually linking documents, the loop never finishes. |
| Cycles.MutualLinksNotRanked | blog-generator/src/generate.py:71-75 | No rank on file names is lowered by both links of a two-document cycle. |
| Cycles.CycleIsNotRanked | blog-generator/src/generate.py:71-75 | The two-document site has no rank, so `RenderHtmlPages` does not apply to it. |
| Cycles.DiamondRun | blog-generator/src/generate.py:66-77 | Take links a→b, a→c and b→c. After three passes c is pending again although it is already rendered, because only the pending list is checked. |
| Cycles.DiamondRendersTwice | blog-generator/src/generate.py:74-77 | On a concrete diamond site, the shared document is queued for a second rendering. |
| LegacyGenerate.TitleAttribute | blog-generator/generate.py:32 | The title attribute is present if and only if the title is non-empty, and its value is the HTML-escaped title. |
| LegacyGenerate.RenderLink | blog-generator/generate.py:31-35 | The anchor is `<a href="` followed by the escaped URL, `.html"`, the title attribute, `>`, the body and `</a>`. |
| LegacyGenerate.RenderOne | blog-generator/generate.py:29-35 | Text renders as raw text. A link renders as an anchor; when the escaped URL holds no quote, its href reads back as that URL plus ".html". |
| LegacyGenerate.RenderAppend | blog-generator/generate.py:29-35 | The renderer works item by item: consecutive content renders to consecutive HTML. |
| LegacyGenerate.HrefOfLink | blog-generator/generate.py:31-35 | When the escaped URL holds no quote, the anchor's href attribute reads back as that URL plus ".html". |
| LegacyGenerate.Fold | blog-generator/generate.py:104-105 | The counter counts the bytes. No bytes leave the value 1, one byte folds to 0, and after n ≥ 2 bytes the value is a multiple of n - 1, the last counter it was multiplied by. |
| LegacyGenerate.FirstByteIgnored | blog-generator/generate.py:104-105 | The fold starts at [1, 0], so the first step multiplies by 0 and the first digest byte never changes the number. |
| LegacyGenerate.Hex | blog-generator/generate.py:106 | `hex(n)[2:]` gives lowercase hex digits that spell n: a single digit below 16, and no leading zero for n > 0. |
| LegacyGenerate.HexLength | blog-generator/generate.py:101-106 | A number below 16^k has at most k hex digits. |
| LegacyGenerate.ZFill | blog-generator/generate.py:106 | `zfill` pads on the left with '0' up to the width and keeps the string as its tail. |
| LegacyGenerate.LeadingZeros | blog-generator/generate.py:106 | Leading zeros do not change the value a hex string spells. |
| LegacyGenerate.PaddedHex | blog-generator/generate.py:101-106 | Below 16^6, `hex(n)[2:].zfill(6)` is exactly six hex digits that still spell n. |
| LegacyGenerate.StableColor | blog-generator/generate.py:100-108 | The colour is "#" followed by exactly 6 lowercase hex digits that spell the folded number modulo 16^6. |
| LegacyGenerate.TagFragments | blog-generator/generate.py:76-79 | There is one fragment per tag, in order, and each gets the stable colour of its tag's digest. |
| LegacyGenerate.GenerateHtml | blog-generator/generate.py:75-90 | The header is prepended exactly when the file name is not `base_path / index_path`. The index page's content is exactly its HTML. |
| LegacyGenerate.DropLast3 | blog-generator/generate.py:94 | `file_name[:-3]` is a prefix that is three characters shorter, or empty for a name of at most three characters. |
| LegacyGenerate.OutputName | blog-generator/generate.py:93-95 | The output file always ends in ".html". It lies under the output directory unless the shortened name is absolute. |
| LegacyGenerate.OutputNameOfMarkdown | blog-generator/generate.py:93-95 | A name ending in ".md" is written under the output path with ".md" replaced by ".html". |

## Left out

- File I/O is not modelled. This covers reading documents, `Path.exists()` (replaced by a set of existing paths), `mkdir`, `write_text`, `shutil.copyfile` and `copytree`, and the templates loaded at module level (passed as functions of their slots).
- `print`, both `main` functions and the legacy `files` list are not modelled: they are driver code with no logic beyond the functions modelled.
- The internals of frontmatter, marko and pydantic are not modelled:
  - Metadata arrives already parsed and typed, and pydantic's coercions (a string for a date, "yes" for a boolean) are not modelled. A value of any other type is a validation error.
  - marko's own rendering of text and links, `escape_html` and `escape_url` are uninterpreted functions.
  - Markdown is reduced to text and links, the only element the code treats specially.
- SHA-256 is an input: `string_to_stable_color` takes the digest bytes, and the tag colours take a digest function.
- `datetime` values are opaque stamps, and their formatting in the header template is part of that template.
- Paths are POSIX strings. `Path` equality is string equality of normalised paths. `..` components are kept, as `pathlib` keeps them.
- Paths.Join: both sides are taken to be normalised already. The joined string is not normalised again, and an empty right-hand side is not dropped as `pathlib` drops it.
- Paths.Normalize: the POSIX rule that exactly two leading slashes are kept is not modelled; such a path gets one leading slash.
- Traversal.Pass: `Path(linkable_file)` at blog-generator/src/generate.py:72 is taken as the identity. The entries come from `Path(link).with_suffix(".md")`, so they are already normalised, but the model does not prove that.
- The legacy `generate_html` is not modelled. It only composes file reading, front-matter parsing, validation and conversion, which are the same steps as `parse_markdown` without the link capture.
- Traversal.RenderHtmlPages: requires a rank that every link of every parseable document lowers, an acyclic link graph. The source has no such precondition and runs for ever on a cycle. The `Cycles` lemmas show that behaviour on `Run`, the function that defines the loop's passes.
- Traversal.RenderHtmlPages: the rank is over every document, including documents the index cannot reach. A cycle among unreachable documents therefore also excludes a site, although the source would finish on it.
- Parser.LinkCapture.RenderLink: `copy(element)` is implicit, because an inline element is a value. The model cannot express a renderer that mutates a shared element.
