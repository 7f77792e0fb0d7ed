/**
 * What `render_html_pages` does on link graphs the traversal method does not
 * accept: its loop checks only the pending list before pushing a target, so
 * a document linked to again after it was rendered is rendered once more,
 * and two documents that link to each other keep the loop going for ever.
 * Both are shown on small sites built from documents that hold only links.
 */
module Cycles {
  import opened Wrappers
  import opened Strings
  import opened Paths
  import opened Failures
  import opened Parser
  import opened Generate
  import opened Traversal

  /** A link destination without directory, suffix or dot: it resolves to itself with ".md" appended. */
  predicate Plain(x: string)
  {
    x != "" && '/' !in x && '.' !in x
  }

  /** A document with a title and nothing but links, to the destinations `dests` in order. */
  function LinkingTo(dests: seq<string>): Document
  {
    Document(map["title" := Str("page")], Links(dests))
  }

  function Links(dests: seq<string>): (r: seq<Inline>)
    ensures Dests(r) == dests
  {
    if dests == [] then []
    else
      assert Dests([Link(dests[0], "", [])] + Links(dests[1..]))[1..] == Dests(Links(dests[1..])) by {
        assert ([Link(dests[0], "", [])] + Links(dests[1..]))[1..] == Links(dests[1..]);
      }
      [Link(dests[0], "", [])] + Links(dests[1..])
  }

  /** Each name with ".md" appended. */
  function MdFiles(names: seq<string>): seq<Path>
  {
    if names == [] then [] else [names[0] + ".md"] + MdFiles(names[1..])
  }

  /** A plain name (no '/', no '.') is its own normal form and gets ".md" appended by `with_suffix`. */
  lemma PlainName(name: string)
    requires Plain(name)
    ensures Normalize(name) == name && Target(name) == Some(name + ".md")
  {
    assert name != "." by {
      assert name[0] != '.';
    }
    NormalizeComponent(name);
    LastIndexOfUnique(name, '/', -1);
    assert Name(name) == name;
    LastIndexOfUnique(name, '.', -1);
    WithSuffixAppends(name, ".md");
  }

  /** On a site of `LinkingTo` documents under "..", each plain link resolves to its ".md" file. */
  lemma PassOfLinking(site: Site, name: Path, dests: seq<string>)
    requires Join("..", name) in site.files && site.files[Join("..", name)] == LinkingTo(dests)
    requires forall d :: d in dests ==> Plain(d) && Join("..", d + ".md") in site.files
    ensures Pass(site, "..", name).Ok?
    ensures Pass(site, "..", name).value.targets == MdFiles(dests)
  {
    var doc := LinkingTo(dests);
    ValidateDefaults("page", doc.body, Join("..", name));
    LinkablePlain(dests, site.files.Keys);
  }

  lemma ResolvePlain(d: string, existing: set<Path>)
    requires Plain(d) && Join("..", d + ".md") in existing
    ensures Resolve(d, existing) == Ok(Some(d + ".md"))
  {
    PlainName(d);
    assert !IsExternal(d) by {
      assert '/' !in d;
      assert |d| < 8 || d[6] != '/';
    }
    assert Join(BasePath, d + ".md") in existing;
  }

  lemma {:induction false} LinkablePlain(dests: seq<string>, existing: set<Path>)
    requires forall d :: d in dests ==> Plain(d) && Join("..", d + ".md") in existing
    ensures Linkable(dests, existing) == Ok(MdFiles(dests))
  {
    if dests != [] {
      assert dests[0] in dests;
      ResolvePlain(dests[0], existing);
      LinkablePlain(dests[1..], existing);
    }
  }

  /** Different plain names lead to different files. */
  lemma FilesDiffer(x: string, y: string)
    requires Plain(x) && Plain(y) && x != y
    ensures x + ".md" != y + ".md"
    ensures Join("..", x + ".md") != Join("..", y + ".md")
  {
    assert (x + ".md")[0] == x[0] && (y + ".md")[0] == y[0];
    if |x| == |y| {
      var k :| 0 <= k < |x| && x[k] != y[k];
      assert (x + ".md")[k] != (y + ".md")[k];
      assert Join("..", x + ".md")[3 + k] != Join("..", y + ".md")[3 + k];
    }
  }

  // ---------------------------------------------------------------------------
  // A link cycle: the loop never ends

  /** Two documents that link to each other. */
  function TwoCycle(m: Markup, t: Templates, a: string, b: string): Site
  {
    Site(map[Join("..", a + ".md") := LinkingTo([b]), Join("..", b + ".md") := LinkingTo([a])], m, t)
  }

  lemma TwoCyclePass(m: Markup, t: Templates, a: string, b: string, name: string, other: string)
    requires Plain(a) && Plain(b) && a != b
    requires (name, other) == (a, b) || (name, other) == (b, a)
    ensures Pass(TwoCycle(m, t, a, b), "..", name + ".md").Ok?
    ensures Pass(TwoCycle(m, t, a, b), "..", name + ".md").value.targets == [other + ".md"]
  {
    FilesDiffer(a, b);
    PassOfLinking(TwoCycle(m, t, a, b), name + ".md", [other]);
  }

  /**
   * Two documents whose only links lead to each other: once one of them is
   * alone pending after n passes, every later pass leaves one of the two alone pending.
   */
  lemma {:induction false} OnePending(pass: Path -> Result<Outcome, Error>, index: Path, x: Path, y: Path, n: nat, m: nat)
    requires pass(x).Ok? && pass(x).value.targets == [y]
    requires pass(y).Ok? && pass(y).value.targets == [x]
    requires Run(pass, index, n).Ok? && Run(pass, index, n).value.pending == [x]
    requires n <= m
    ensures Run(pass, index, m).Ok?
    ensures Run(pass, index, m).value.pending == [x] || Run(pass, index, m).value.pending == [y]
    decreases m - n
  {
    if n < m {
      PassOnSingle(pass, index, n, Run(pass, index, n).value, x, y);
      OnePending(pass, index, y, x, n + 1, m);
    }
  }

  /** A pass on a lone pending name whose only link leads to y leaves y alone pending. */
  lemma PassOnSingle(pass: Path -> Result<Outcome, Error>, index: Path, n: nat, st: State, x: Path, y: Path)
    requires Run(pass, index, n) == Ok(st) && st.pending == [x]
    requires pass(x).Ok? && pass(x).value.targets == [y]
    ensures Run(pass, index, n + 1).Ok? && Run(pass, index, n + 1).value.pending == [y]
  {
    RunNext(pass, index, n, st);
    assert [x][..0] == [] && [y][..0] == [] && [] + [y] == [y];
    assert Enqueue([], [y]) == [y];
  }

  /** The same two documents never leave the pending list empty: the loop runs for ever. */
  lemma NeverEmpty(pass: Path -> Result<Outcome, Error>, a: Path, b: Path, n: nat)
    requires pass(a).Ok? && pass(a).value.targets == [b]
    requires pass(b).Ok? && pass(b).value.targets == [a]
    ensures Run(pass, a, n).Ok? && Run(pass, a, n).value.pending != []
  {
    OnePending(pass, a, a, b, 0, n);
  }

  /** On the two-document cycle the pending list is never empty, whatever the number of passes. */
  lemma CycleNeverEnds(m: Markup, t: Templates, a: string, b: string, n: nat)
    requires Plain(a) && Plain(b) && a != b
    ensures Run(Passes(TwoCycle(m, t, a, b), ".."), a + ".md", n).Ok?
    ensures Run(Passes(TwoCycle(m, t, a, b), ".."), a + ".md", n).value.pending != []
  {
    TwoCyclePass(m, t, a, b, a, b);
    TwoCyclePass(m, t, a, b, b, a);
    NeverEmpty(Passes(TwoCycle(m, t, a, b), ".."), a + ".md", b + ".md", n);
  }

  /** No rank makes every link of the cycle go down, so `RenderHtmlPages` cannot be called on it. */
  lemma CycleIsNotRanked(m: Markup, t: Templates, a: string, b: string, rank: Path -> nat)
    requires Plain(a) && Plain(b) && a != b
    ensures !Ranked(Passes(TwoCycle(m, t, a, b), ".."), rank)
  {
    TwoCyclePass(m, t, a, b, a, b);
    TwoCyclePass(m, t, a, b, b, a);
    MutualLinksNotRanked(Passes(TwoCycle(m, t, a, b), ".."), a + ".md", b + ".md", rank);
  }

  lemma MutualLinksNotRanked(pass: Path -> Result<Outcome, Error>, a: Path, b: Path, rank: Path -> nat)
    requires pass(a).Ok? && b in pass(a).value.targets
    requires pass(b).Ok? && a in pass(b).value.targets
    ensures !Ranked(pass, rank)
  {
    assert !(rank(b) < rank(a) && rank(a) < rank(b));
  }

  // ---------------------------------------------------------------------------
  // A diamond: a document reached again after it was rendered is rendered again

  /** Three plain names, pairwise different. */
  predicate DistinctPlain(a: string, b: string, c: string)
  {
    Plain(a) && Plain(b) && Plain(c) && a != b && b != c && a != c
  }

  /** Three documents: a links to b and c, b links to c, c links nowhere. */
  function Diamond(m: Markup, t: Templates, a: string, b: string, c: string): Site
  {
    Site(map[Join("..", a + ".md") := LinkingTo([b, c]), Join("..", b + ".md") := LinkingTo([c]), Join("..", c + ".md") := LinkingTo([])], m, t)
  }

  /** Each document of the diamond resolves its links to the ".md" files under "..". */
  lemma DiamondPass(m: Markup, t: Templates, a: string, b: string, c: string, name: string, dests: seq<string>)
    requires DistinctPlain(a, b, c)
    requires (name, dests) == (a, [b, c]) || (name, dests) == (b, [c]) || (name, dests) == (c, [])
    ensures Passes(Diamond(m, t, a, b, c), "..")(name + ".md").Ok?
    ensures Passes(Diamond(m, t, a, b, c), "..")(name + ".md").value.targets == MdFiles(dests)
  {
    FilesDiffer(a, b);
    FilesDiffer(b, c);
    FilesDiffer(a, c);
    PassOfLinking(Diamond(m, t, a, b, c), name + ".md", dests);
  }

  /**
   * In a diamond a -> b, a -> c, b -> c, three passes leave c pending although
   * it is already rendered: the loop pops c, then b, whose link pushes c once
   * more because only the pending list is consulted.
   */
  lemma DiamondRun(pass: Path -> Result<Outcome, Error>, a: Path, b: Path, c: Path)
    requires b != c
    requires pass(a).Ok? && pass(a).value.targets == [b, c]
    requires pass(b).Ok? && pass(b).value.targets == [c]
    requires pass(c).Ok? && pass(c).value.targets == []
    ensures Run(pass, a, 3).Ok?
    ensures Run(pass, a, 3).value.pending == [c]
    ensures c in Run(pass, a, 3).value.done
  {
    var s0 := State([a], map[]);
    assert [a][..0] == [];
    assert Enqueue([], [b, c]) == [b, c] by {
      assert [b, c][..1] == [b];
      assert Enqueue([], [b]) == [b];
    }
    var s1 := State([b, c], map[a := pass(a).value.page]);
    RunNext(pass, a, 0, s0);
    assert [b, c][..1] == [b];
    var s2 := State([b], s1.done[c := pass(c).value.page]);
    RunNext(pass, a, 1, s1);
    assert [b][..0] == [];
    RunNext(pass, a, 2, s2);
  }

  /** The passes of the diamond site, one per document. */
  lemma DiamondPasses(m: Markup, t: Templates, a: string, b: string, c: string)
    requires DistinctPlain(a, b, c)
    ensures Passes(Diamond(m, t, a, b, c), "..")(a + ".md").Ok?
    ensures Passes(Diamond(m, t, a, b, c), "..")(a + ".md").value.targets == [b + ".md", c + ".md"]
    ensures Passes(Diamond(m, t, a, b, c), "..")(b + ".md").Ok?
    ensures Passes(Diamond(m, t, a, b, c), "..")(b + ".md").value.targets == [c + ".md"]
    ensures Passes(Diamond(m, t, a, b, c), "..")(c + ".md").Ok?
    ensures Passes(Diamond(m, t, a, b, c), "..")(c + ".md").value.targets == []
  {
    assert MdFiles([b, c]) == [b + ".md", c + ".md"] by {
      assert [b, c][1..] == [c];
      assert MdFiles([c]) == [c + ".md"];
    }
    assert MdFiles([c]) == [c + ".md"];
    DiamondPass(m, t, a, b, c, a, [b, c]);
    DiamondPass(m, t, a, b, c, b, [c]);
    DiamondPass(m, t, a, b, c, c, []);
  }

  /** On any diamond site, the document c is pending for a second rendering after three passes. */
  lemma DiamondRendersTwice(m: Markup, t: Templates, a: string, b: string, c: string)
    requires DistinctPlain(a, b, c)
    ensures Run(Passes(Diamond(m, t, a, b, c), ".."), a + ".md", 3).Ok?
    ensures Run(Passes(Diamond(m, t, a, b, c), ".."), a + ".md", 3).value.pending == [c + ".md"]
    ensures c + ".md" in Run(Passes(Diamond(m, t, a, b, c), ".."), a + ".md", 3).value.done
  {
    FilesDiffer(b, c);
    DiamondPasses(m, t, a, b, c);
    DiamondRun(Passes(Diamond(m, t, a, b, c), ".."), a + ".md", b + ".md", c + ".md");
  }
}
