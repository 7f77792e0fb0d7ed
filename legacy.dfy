/**
 * The older single-file generator (blog-generator/generate.py): its link
 * renderer, the page assembly of `_generate_html`, the output naming of
 * `save_output` and `string_to_stable_color`, which turns a tag's SHA-256
 * digest into a colour. The digest itself is an input.
 */
module LegacyGenerate {
  import opened Wrappers
  import opened Strings
  import opened Paths
  import opened Parser

  /** The module-level `base_path` (`Path("../")`, whose string form is ".."). */
  const BasePath: Path := ".."

  /** The module-level `index_path`. */
  const IndexPath: Path := "blog/index.md"

  /** The module-level `output_path`. */
  const OutputPath: Path := "output"

  /** `NUMBER_OF_COLORS`: 16**6. */
  const NumberOfColors: nat := 16 * 16 * 16 * 16 * 16 * 16

  newtype byte = x: int | 0 <= x < 256

  // ---------------------------------------------------------------------------
  // LinkRendererMixin.render_link

  /** The title attribute of a link: absent for an empty title, otherwise its HTML-escaped value in quotes. */
  function TitleAttribute(m: Markup, title: string): (r: string)
    ensures r == "" <==> title == ""
    ensures title != "" ==> r == " title=\"" + m.escapeHtml(title) + "\""
  {
    if title == "" then "" else " title=\"" + m.escapeHtml(title) + "\""
  }

  /** The HTML of a body of inline markdown under the legacy renderer. */
  function Render(m: Markup, xs: seq<Inline>): string
  {
    if xs == [] then "" else RenderOne(m, xs[0]) + Render(m, xs[1..])
  }

  /** One inline item: a link becomes an anchor whose href, when the escaped URL holds no quote, is that URL plus ".html". */
  function RenderOne(m: Markup, x: Inline): (r: string)
    ensures x.Text? ==> r == m.rawText(x.text)
    ensures x.Link? ==> "<a href=\"" <= r
    ensures x.Link? && '"' !in m.escapeUrl(x.dest) ==> Href(r) == Some(m.escapeUrl(x.dest) + ".html")
  {
    match x
    case Text(text) => m.rawText(text)
    case Link(dest, title, children) =>
      var body := Render(m, children);
      if '"' !in m.escapeUrl(dest) then
        HrefOfLink(m, dest, title, body);
        RenderLink(m, dest, title, body)
      else
        RenderLink(m, dest, title, body)
  }

  /** The legacy renderer works item by item: consecutive content renders to consecutive HTML. */
  lemma {:induction false} RenderAppend(m: Markup, xs: seq<Inline>, ys: seq<Inline>)
    ensures Render(m, xs + ys) == Render(m, xs) + Render(m, ys)
  {
    if xs != [] {
      assert (xs + ys)[0] == xs[0] && (xs + ys)[1..] == xs[1..] + ys;
      RenderAppend(m, xs[1..], ys);
    } else {
      assert xs + ys == ys;
    }
  }

  /** `render_link`: `<a href="URL.html"TITLE>BODY</a>` with URL the escaped destination. */
  function RenderLink(m: Markup, dest: string, title: string, body: string): (r: string)
    ensures "<a href=\"" <= r
    ensures r[9..] == m.escapeUrl(dest) + ".html\"" + TitleAttribute(m, title) + ">" + body + "</a>"
  {
    "<a href=\"" + m.escapeUrl(dest) + ".html\"" + TitleAttribute(m, title) + ">" + body + "</a>"
  }

  /** The characters of s before the first c (all of s when there is none). */
  function TakeUntil(s: string, c: char): (r: string)
    ensures r <= s && c !in r
  {
    if s == [] || s[0] == c then [] else [s[0]] + TakeUntil(s[1..], c)
  }

  lemma {:induction false} TakeUntilStops(a: string, c: char, b: string)
    requires c !in a
    ensures TakeUntil(a + [c] + b, c) == a
  {
    if a != [] {
      assert (a + [c] + b)[1..] == a[1..] + [c] + b;
      TakeUntilStops(a[1..], c, b);
    } else {
      assert (a + [c] + b)[0] == c;
    }
  }

  /** The value of the `href` attribute of an anchor that starts with `<a href="`. */
  function Href(html: string): Option<string>
  {
    if "<a href=\"" <= html then Some(TakeUntil(html[9..], '"')) else None
  }

  /** When the escaped destination holds no quote, a reader of the anchor finds the href to be that destination plus ".html". */
  lemma HrefOfLink(m: Markup, dest: string, title: string, body: string)
    requires '"' !in m.escapeUrl(dest)
    ensures Href(RenderLink(m, dest, title, body)) == Some(m.escapeUrl(dest) + ".html")
  {
    var url := m.escapeUrl(dest) + ".html";
    var rest := TitleAttribute(m, title) + ">" + body + "</a>";
    assert '"' !in ".html";
    assert '"' !in url by {
      assert forall i :: 0 <= i < |url| ==> url[i] == (if i < |m.escapeUrl(dest)| then m.escapeUrl(dest)[i] else ".html"[i - |m.escapeUrl(dest)|]);
    }
    assert RenderLink(m, dest, title, body)[9..] == url + ['"'] + rest;
    TakeUntilStops(url, '"', rest);
  }

  // ---------------------------------------------------------------------------
  // string_to_stable_color

  /**
   * `reduce(_reduce, hash_bytes, [1, 0])`: each byte x turns (a, k) into
   * ((a + x) * k, k + 1). The counter counts the bytes, so after n bytes the
   * value is a multiple of n - 1, and a single byte folds to 0.
   */
  function Fold(bytes: seq<byte>): (r: (nat, nat))
    ensures r.1 == |bytes|
    ensures bytes == [] ==> r.0 == 1
    ensures |bytes| == 1 ==> r.0 == 0
    ensures |bytes| >= 2 ==> r.0 % (|bytes| - 1) == 0
  {
    if bytes == [] then (1, 0)
    else
      var acc := Fold(bytes[..|bytes| - 1]);
      var a := acc.0 + bytes[|bytes| - 1] as nat;
      if acc.1 > 0 then
        MultipleOf(a, acc.1);
        (a * acc.1, acc.1 + 1)
      else
        (a * acc.1, acc.1 + 1)
  }

  /** A multiple of k leaves no remainder. */
  lemma MultipleOf(a: nat, k: nat)
    requires k > 0
    ensures (a * k) % k == 0
  {
    var q, m := (a * k) / k, (a * k) % k;
    assert k * (a - q) == m;
    if a - q >= 1 {
      AtLeastOnce(k, a - q);
      assert false;
    } else if a - q <= -1 {
      AtLeastOnce(k, q - a);
      assert false;
    }
  }

  /** k taken at least once is at least k. */
  lemma AtLeastOnce(k: nat, d: int)
    requires d >= 1
    ensures k * d >= k
  {
  }

  /** The number a digest folds to. */
  function Number(bytes: seq<byte>): nat
  {
    Fold(bytes).0
  }

  /** The first step multiplies by the starting counter 0, so the first byte never matters. */
  lemma {:induction false} FirstByteIgnored(x: byte, y: byte, rest: seq<byte>)
    ensures Number([x] + rest) == Number([y] + rest)
  {
    if rest == [] {
    } else {
      var init := rest[..|rest| - 1];
      FirstByteIgnored(x, y, init);
      assert ([x] + rest)[..|rest|] == [x] + init;
      assert ([y] + rest)[..|rest|] == [y] + init;
    }
  }

  predicate IsHexDigit(c: char)
  {
    '0' <= c <= '9' || 'a' <= c <= 'f'
  }

  function DigitValue(c: char): nat
    requires IsHexDigit(c)
  {
    if c <= '9' then c as nat - '0' as nat else c as nat - 'a' as nat + 10
  }

  function HexDigit(d: nat): (c: char)
    requires d < 16
    ensures IsHexDigit(c) && DigitValue(c) == d
  {
    if d < 10 then ('0' as nat + d) as char else ('a' as nat + d - 10) as char
  }

  /** The number a string of hex digits spells, most significant digit first. */
  function HexValue(s: string): nat
    requires forall i :: 0 <= i < |s| ==> IsHexDigit(s[i])
  {
    if s == [] then 0 else HexValue(s[..|s| - 1]) * 16 + DigitValue(s[|s| - 1])
  }

  function Pow16(k: nat): (r: nat)
    ensures r >= 1
  {
    if k == 0 then 1 else 16 * Pow16(k - 1)
  }

  /** `hex(n)[2:]`: n in lowercase hex digits, "0" for zero, no leading zero otherwise. */
  function Hex(n: nat): (r: string)
    ensures |r| >= 1 && forall i :: 0 <= i < |r| ==> IsHexDigit(r[i])
    ensures HexValue(r) == n
    ensures n > 0 ==> r[0] != '0'
    ensures n < 16 ==> |r| == 1
  {
    if n < 16 then [HexDigit(n)]
    else
      var r := Hex(n / 16) + [HexDigit(n % 16)];
      assert r[..|r| - 1] == Hex(n / 16);
      r
  }

  /** A number below 16^k needs at most k hex digits. */
  lemma {:induction false} HexLength(n: nat, k: nat)
    requires 1 <= k && n < Pow16(k)
    ensures |Hex(n)| <= k
  {
    if n >= 16 {
      HexLength(n / 16, k - 1);
    }
  }

  /** `str.zfill(width)` on a string without sign: left-padded with '0' to the width. */
  function ZFill(s: string, width: nat): (r: string)
    ensures |r| == if |s| >= width then |s| else width
    ensures r[|r| - |s|..] == s
    ensures forall i :: 0 <= i < |r| - |s| ==> r[i] == '0'
    decreases width - |s|
  {
    if |s| >= width then s else ZFill(['0'] + s, width)
  }

  /** Leading zeros do not change the value of a hex string. */
  lemma {:induction false} LeadingZeros(s: string, k: nat)
    requires k <= |s| && forall i :: 0 <= i < |s| ==> IsHexDigit(s[i])
    requires forall i :: 0 <= i < k ==> s[i] == '0'
    ensures HexValue(s) == HexValue(s[k..])
  {
    if k < |s| {
      LeadingZeros(s[..|s| - 1], k);
      assert s[..|s| - 1][k..] == s[k..][..|s[k..]| - 1];
    } else {
      AllZeros(s);
    }
  }

  lemma {:induction false} AllZeros(s: string)
    requires forall i :: 0 <= i < |s| ==> s[i] == '0'
    ensures forall i :: 0 <= i < |s| ==> IsHexDigit(s[i])
    ensures HexValue(s) == 0
  {
    if s != [] {
      AllZeros(s[..|s| - 1]);
    }
  }

  /**
   * `string_to_stable_color`: "#" followed by exactly six lowercase hex
   * digits that spell the folded digest modulo 16^6.
   */
  function StableColor(digest: seq<byte>): (r: string)
    ensures |r| == 7 && r[0] == '#'
    ensures forall i :: 1 <= i < 7 ==> IsHexDigit(r[i])
    ensures HexValue(r[1..]) == Number(digest) % NumberOfColors
  {
    var n := Number(digest) % NumberOfColors;
    var digits := ZFill(Hex(n), 6);
    PaddedHex(n);
    var r := "#" + digits;
    assert r[1..] == digits;
    r
  }

  /** Below 16^6, the zero-filled hex digits are six digits that still spell the number. */
  lemma PaddedHex(n: nat)
    requires n < NumberOfColors
    ensures |ZFill(Hex(n), 6)| == 6
    ensures forall i :: 0 <= i < 6 ==> IsHexDigit(ZFill(Hex(n), 6)[i])
    ensures HexValue(ZFill(Hex(n), 6)) == n
  {
    var hex := Hex(n);
    assert |hex| <= 6 by {
      assert Pow16(6) == NumberOfColors;
      HexLength(n, 6);
    }
    var digits := ZFill(hex, 6);
    var pad := 6 - |hex|;
    assert digits[pad..] == hex;
    assert forall i :: 0 <= i < 6 ==> IsHexDigit(digits[i]) by {
      forall i | 0 <= i < 6 ensures IsHexDigit(digits[i]) {
        if i >= pad {
          assert digits[i] == hex[i - pad];
        }
      }
    }
    LeadingZeros(digits, pad);
  }

  // ---------------------------------------------------------------------------
  // _generate_html

  /** The three templates of the legacy generator, as functions of their named slots. */
  datatype Templates = Templates(
    tag: (string, string) -> string,                // tag_template.format(tag=..., tag_color=...)
    header: (string, Option<Stamp>) -> string,      // header_template.format(tags=..., created_at=...)
    main: (string, string) -> string)               // main_template.format(content=..., title=...)

  /** The legacy `ParsedHtml` record: the metadata, the file name and the rendered body. */
  datatype Page = Page(
    content: string,
    title: string,
    tags: Option<seq<string>>,
    createdAt: Option<Stamp>,
    fileName: Path,
    html: string)

  /** One tag fragment per tag, in order, each coloured by the digest of its tag. */
  function TagFragments(t: Templates, digest: string -> seq<byte>, tags: seq<string>): (r: seq<string>)
    ensures |r| == |tags|
    ensures forall i :: 0 <= i < |tags| ==> r[i] == t.tag(tags[i], StableColor(digest(tags[i])))
  {
    if tags == [] then [] else [t.tag(tags[0], StableColor(digest(tags[0])))] + TagFragments(t, digest, tags[1..])
  }

  /** The file name of the index page as `_generate_html` compares it: `base_path / index_path`. */
  function IndexFile(): Path
  {
    Join(BasePath, IndexPath)
  }

  /**
   * `_generate_html`: the main template of the content and the title, where
   * the content is the body html with the header in front of it on every page
   * but the index.
   */
  function GenerateHtml(t: Templates, digest: string -> seq<byte>, page: Page): (r: string)
    ensures page.fileName == IndexFile() ==> r == t.main(page.html, page.title)
    ensures page.fileName != IndexFile() ==>
      r == t.main(t.header(Concat(TagFragments(t, digest, match page.tags case None => [] case Some(ts) => ts)), page.createdAt) + page.html, page.title)
  {
    var tagHtmlList := TagFragments(t, digest, match page.tags case None => [] case Some(ts) => ts);
    var headerHtml := t.header(Concat(tagHtmlList), page.createdAt);
    var content := if page.fileName != IndexFile() then headerHtml + page.html else page.html;
    t.main(content, page.title)
  }

  // ---------------------------------------------------------------------------
  // save_output

  /** `file_name[:-3]`: the name without its last three characters, empty when it is shorter. */
  function DropLast3(s: string): (r: string)
    ensures r <= s && |r| == if |s| <= 3 then 0 else |s| - 3
  {
    if |s| <= 3 then "" else s[..|s| - 3]
  }

  /**
   * `output_path / f"{file_name[:-3]}.html"`: always a ".html" file, under
   * the output directory unless the shortened name is absolute.
   */
  function OutputName(fileName: string): (r: Path)
    ensures |r| >= 5 && r[|r| - 5..] == ".html"
    ensures DropLast3(fileName) == "" || DropLast3(fileName)[0] != '/' ==> OutputPath + "/" <= r
  {
    Join(OutputPath, DropLast3(fileName) + ".html")
  }

  /** A markdown file name is written under the output directory with ".md" replaced by ".html". */
  lemma OutputNameOfMarkdown(stem: string)
    ensures OutputName(stem + ".md") == Join(OutputPath, stem + ".html")
  {
    assert (stem + ".md")[..|stem|] == stem;
  }
}
