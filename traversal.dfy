/**
 * The traversal of `render_html_pages` (blog-generator/src/generate.py): a
 * list of pending file names used as a stack, and a dictionary from file name
 * to rendered page. Before a target is pushed, only the pending list is
 * consulted, never the dictionary: a document reached again after it was
 * rendered is parsed and rendered again, and on a link cycle the loop never
 * ends. The method therefore takes a rank on documents that every link
 * decreases (the link graph is acyclic); the module `Cycles` shows what
 * happens without one.
 *
 * The loop's semantics (`Step`, `Run`) and the invariant it keeps are stated
 * over an arbitrary pass function (what one pass makes of a file name); the
 * method uses the one `Pass` defines from the parser and the link resolver.
 */
module Traversal {
  import opened Wrappers
  import opened Paths
  import opened Failures
  import opened Parser
  import opened Generate

  /** What a build sees: the documents that exist (by full path), marko's renderer and the templates. */
  datatype Site = Site(files: map<Path, Document>, markup: Markup, templates: Templates)

  /** What one pass makes of a document: the file names its links lead to, and its page. */
  datatype Outcome = Outcome(targets: seq<Path>, page: string)

  /** The state of the loop: the pending file names (a stack) and the pages rendered so far. */
  datatype State = State(pending: seq<Path>, done: map<Path, string>)

  /**
   * One pass over the document `name`: `parse_markdown` on the path under the
   * base, `get_linkable_files` on its links, `render_html` on its page; the
   * first error raised ends the pass.
   */
  function Pass(site: Site, base: Path, name: Path): Result<Outcome, Error>
  {
    match Parsed(site.files, site.markup, Join(base, name))
    case Err(e) => Err(e)
    case Ok(parsed) =>
      match Linkable(parsed.1, site.files.Keys)
      case Err(e) => Err(e)
      case Ok(targets) => Ok(Outcome(targets, RenderHtml(site.templates, parsed.0)))
  }

  function Passes(site: Site, base: Path): Path -> Result<Outcome, Error>
  {
    name => Pass(site, base, name)
  }

  predicate NoDuplicates(s: seq<Path>)
  {
    forall i, j :: 0 <= i < j < |s| ==> s[i] != s[j]
  }

  /** The inner loop: each target that is not pending yet is pushed, in the targets' order. */
  function Enqueue(pending: seq<Path>, targets: seq<Path>): (r: seq<Path>)
    ensures pending <= r
    ensures forall x :: x in r <==> x in pending || x in targets
    ensures NoDuplicates(pending) ==> NoDuplicates(r)
  {
    if targets == [] then pending
    else
      var q := Enqueue(pending, targets[..|targets| - 1]);
      var x := targets[|targets| - 1];
      assert forall y :: y in targets <==> y in targets[..|targets| - 1] || y == x by {
        assert targets == targets[..|targets| - 1] + [x];
      }
      if x in q then q else q + [x]
  }

  /** One pass of the `while` loop: pop the last file name, run the pass on it, push its new targets, record its page. */
  function Step(pass: Path -> Result<Outcome, Error>, st: State): Result<State, Error>
    requires st.pending != []
  {
    var name := st.pending[|st.pending| - 1];
    var remaining := st.pending[..|st.pending| - 1];
    match pass(name)
    case Err(e) => Err(e)
    case Ok(out) => Ok(State(Enqueue(remaining, out.targets), st.done[name := out.page]))
  }

  /** The state after n passes of the loop, starting from the index alone; a finished state stays as it is. */
  function Run(pass: Path -> Result<Outcome, Error>, index: Path, n: nat): Result<State, Error>
  {
    if n == 0 then Ok(State([index], map[]))
    else
      match Run(pass, index, n - 1)
      case Err(e) => Err(e)
      case Ok(st) => if st.pending == [] then Ok(st) else Step(pass, st)
  }

  /**
   * A pass succeeds only on a document that exists, and then its targets
   * exist under the resolver's base and its page is the rendering of its
   * own parse.
   */
  lemma PassOutcome(site: Site, base: Path, name: Path)
    ensures Pass(site, base, name).Ok? ==>
      && Join(base, name) in site.files
      && Parsed(site.files, site.markup, Join(base, name)).Ok?
      && (forall t :: t in Pass(site, base, name).value.targets ==> Join(BasePath, t) in site.files)
      && Pass(site, base, name).value.page == RenderHtml(site.templates, Parsed(site.files, site.markup, Join(base, name)).value.0)
  {
  }

  /**
   * One step fails exactly when the pass on the popped name fails; otherwise
   * that name is recorded, nothing else is, and the names below it stay
   * pending in order.
   */
  lemma StepOutcome(pass: Path -> Result<Outcome, Error>, st: State)
    requires st.pending != []
    ensures Step(pass, st).Ok? <==> pass(st.pending[|st.pending| - 1]).Ok?
    ensures Step(pass, st).Ok? ==> Step(pass, st).value.done.Keys == st.done.Keys + {st.pending[|st.pending| - 1]}
    ensures Step(pass, st).Ok? ==> st.pending[..|st.pending| - 1] <= Step(pass, st).value.pending
  {
  }

  /** A name that is pending or rendered stays so across a successful step. */
  lemma StepKeepsName(pass: Path -> Result<Outcome, Error>, st: State, x: Path)
    requires st.pending != [] && (x in st.pending || x in st.done)
    ensures Step(pass, st).Ok? ==> x in Step(pass, st).value.pending || x in Step(pass, st).value.done
  {
    StepOutcome(pass, st);
    var last := |st.pending| - 1;
    if x != st.pending[last] && x in st.pending {
      var i :| 0 <= i < |st.pending| && st.pending[i] == x;
      assert st.pending[..last][i] == x;
    }
  }

  /** The index is never lost: after any number of passes it is pending or rendered. */
  lemma {:induction false} RunKeepsIndex(pass: Path -> Result<Outcome, Error>, index: Path, n: nat)
    ensures Run(pass, index, n).Ok? ==> index in Run(pass, index, n).value.pending || index in Run(pass, index, n).value.done
  {
    if n > 0 {
      RunKeepsIndex(pass, index, n - 1);
      var prev := Run(pass, index, n - 1);
      if prev.Ok? && prev.value.pending != [] {
        assert Run(pass, index, n) == Step(pass, prev.value);
        StepKeepsName(pass, prev.value, index);
      }
    }
  }

  // ---------------------------------------------------------------------------
  // Termination on an acyclic link graph

  /** Every link leads to a document of lower rank: the link graph has no cycle. */
  ghost predicate Ranked(pass: Path -> Result<Outcome, Error>, rank: Path -> nat)
  {
    forall name, target :: pass(name).Ok? && target in pass(name).value.targets ==> rank(target) < rank(name)
  }

  /** How many passes a document can still cause: one for itself and those of every target it pushes. */
  ghost function Weight(pass: Path -> Result<Outcome, Error>, rank: Path -> nat, name: Path): nat
    requires Ranked(pass, rank)
    decreases rank(name) + 1, 0
  {
    match pass(name)
    case Err(_) => 1
    case Ok(out) => 1 + WeightBelow(pass, rank, out.targets, rank(name))
  }

  ghost function WeightBelow(pass: Path -> Result<Outcome, Error>, rank: Path -> nat, names: seq<Path>, bound: nat): nat
    requires Ranked(pass, rank)
    requires forall x :: x in names ==> rank(x) < bound
    decreases bound, |names|
  {
    if names == [] then 0
    else WeightBelow(pass, rank, names[..|names| - 1], bound) + Weight(pass, rank, names[|names| - 1])
  }

  /** The passes a pending list can still cause. */
  ghost function Total(pass: Path -> Result<Outcome, Error>, rank: Path -> nat, names: seq<Path>): nat
    requires Ranked(pass, rank)
  {
    if names == [] then 0
    else Total(pass, rank, names[..|names| - 1]) + Weight(pass, rank, names[|names| - 1])
  }

  lemma {:induction false} WeightBelowIsTotal(pass: Path -> Result<Outcome, Error>, rank: Path -> nat, names: seq<Path>, bound: nat)
    requires Ranked(pass, rank)
    requires forall x :: x in names ==> rank(x) < bound
    ensures WeightBelow(pass, rank, names, bound) == Total(pass, rank, names)
  {
    if names != [] {
      WeightBelowIsTotal(pass, rank, names[..|names| - 1], bound);
    }
  }

  /** Pushing a subset of the targets adds at most the targets' weight. */
  lemma {:induction false} EnqueueWeight(pass: Path -> Result<Outcome, Error>, rank: Path -> nat, pending: seq<Path>, targets: seq<Path>)
    requires Ranked(pass, rank)
    ensures Total(pass, rank, Enqueue(pending, targets)) <= Total(pass, rank, pending) + Total(pass, rank, targets)
  {
    if targets != [] {
      var init := targets[..|targets| - 1];
      var x := targets[|targets| - 1];
      EnqueueWeight(pass, rank, pending, init);
      var q := Enqueue(pending, init);
      if x !in q {
        assert (q + [x])[..|q|] == q;
      }
    }
  }

  /** Every pass lowers the passes still to come. */
  lemma StepDecreases(pass: Path -> Result<Outcome, Error>, rank: Path -> nat, st: State)
    requires Ranked(pass, rank) && st.pending != [] && Step(pass, st).Ok?
    ensures Total(pass, rank, Step(pass, st).value.pending) < Total(pass, rank, st.pending)
  {
    var name := st.pending[|st.pending| - 1];
    var remaining := st.pending[..|st.pending| - 1];
    var targets := pass(name).value.targets;
    WeightBelowIsTotal(pass, rank, targets, rank(name));
    EnqueueWeight(pass, rank, remaining, targets);
  }

  // ---------------------------------------------------------------------------
  // What every pass of the loop keeps

  /** Some rendered document links to `name`. */
  ghost predicate Reached(pass: Path -> Result<Outcome, Error>, done: map<Path, string>, name: Path)
  {
    exists j :: j in done && pass(j).Ok? && name in pass(j).value.targets
  }

  /**
   * The loop invariant: no file name is pending twice; the index is pending
   * or rendered; each rendered page is its document's page; each target of a
   * rendered document is rendered or pending; each pending or rendered name is
   * the index or a target of a rendered document.
   */
  ghost predicate Invariant(pass: Path -> Result<Outcome, Error>, index: Path, st: State)
  {
    && NoDuplicates(st.pending)
    && (index in st.done || index in st.pending)
    && (forall k :: k in st.done ==> pass(k).Ok? && pass(k).value.page == st.done[k])
    && (forall k, t :: k in st.done && pass(k).Ok? && t in pass(k).value.targets ==> t in st.done || t in st.pending)
    && (forall k :: k in st.done || k in st.pending ==> k == index || Reached(pass, st.done, k))
  }

  /**
   * What the finished loop guarantees: the index is rendered, each rendered
   * page is its document's page, each target of a rendered document is
   * rendered, and each rendered document is the index or a target of a
   * rendered document.
   */
  ghost predicate Complete(pass: Path -> Result<Outcome, Error>, index: Path, done: map<Path, string>)
  {
    && index in done
    && (forall k :: k in done ==> pass(k).Ok? && pass(k).value.page == done[k])
    && (forall k, t :: k in done && pass(k).Ok? && t in pass(k).value.targets ==> t in done)
    && (forall k :: k in done ==> k == index || Reached(pass, done, k))
  }

  lemma InitialInvariant(pass: Path -> Result<Outcome, Error>, index: Path)
    ensures Invariant(pass, index, State([index], map[]))
  {
  }

  /** Every pass keeps the invariant. */
  lemma StepKeepsInvariant(pass: Path -> Result<Outcome, Error>, index: Path, st: State)
    requires st.pending != [] && Invariant(pass, index, st) && Step(pass, st).Ok?
    ensures Invariant(pass, index, Step(pass, st).value)
  {
    var name := st.pending[|st.pending| - 1];
    var remaining := st.pending[..|st.pending| - 1];
    assert st.pending == remaining + [name];
    var out := pass(name).value;
    var next := Step(pass, st).value;
    assert next == State(Enqueue(remaining, out.targets), st.done[name := out.page]);
    assert NoDuplicates(remaining);
    forall k, t | k in next.done && pass(k).Ok? && t in pass(k).value.targets
      ensures t in next.done || t in next.pending
    {
      if k == name {
        assert t in out.targets;
      } else {
        assert k in st.done;
        assert t in st.done || t in st.pending;
        if t != name && t !in st.done {
          assert t in remaining;
        }
      }
    }
    forall k | k in next.done || k in next.pending
      ensures k == index || Reached(pass, next.done, k)
    {
      if k != index {
        if k in st.done || k in st.pending {
          var j :| j in st.done && pass(j).Ok? && k in pass(j).value.targets;
          assert j in next.done;
        } else {
          assert k in out.targets;
        }
      }
    }
  }

  /** Every state the loop reaches satisfies the invariant. */
  lemma {:induction false} RunKeepsInvariant(pass: Path -> Result<Outcome, Error>, index: Path, n: nat)
    requires Run(pass, index, n).Ok?
    ensures Invariant(pass, index, Run(pass, index, n).value)
  {
    if n == 0 {
      InitialInvariant(pass, index);
    } else {
      RunKeepsInvariant(pass, index, n - 1);
      var st := Run(pass, index, n - 1).value;
      if st.pending != [] {
        StepKeepsInvariant(pass, index, st);
      }
    }
  }

  /** With nothing pending, the invariant is the finished loop's guarantee. */
  lemma FinishedState(pass: Path -> Result<Outcome, Error>, index: Path, done: map<Path, string>)
    requires Invariant(pass, index, State([], done))
    ensures Complete(pass, index, done)
  {
  }

  // ---------------------------------------------------------------------------
  // render_html_pages

  /** The pass after n passes, when there is still something pending. */
  lemma RunNext(pass: Path -> Result<Outcome, Error>, index: Path, n: nat, st: State)
    requires Run(pass, index, n) == Ok(st) && st.pending != []
    ensures Run(pass, index, n + 1) == Step(pass, st)
  {
  }

  /** The inner `for` loop of `render_html_pages`: pushes each target that is not pending yet. */
  method PushTargets(pending: seq<Path>, targets: seq<Path>) returns (r: seq<Path>)
    ensures r == Enqueue(pending, targets)
  {
    r := pending;
    for i := 0 to |targets|
      invariant r == Enqueue(pending, targets[..i])
    {
      var target := targets[i];
      assert targets[..i + 1][..i] == targets[..i];
      if target !in r {
        r := r + [target];
      }
    }
    assert targets[..|targets|] == targets;
  }

  /**
   * `render_html_pages`: renders the index and, transitively, every document
   * its links lead to. On success the result is complete for the index and
   * is where the loop's passes end; on failure the error is the one some pass
   * raises.
   */
  method RenderHtmlPages(site: Site, indexPath: Path, basePath: Path, ghost rank: Path -> nat)
    returns (r: Result<map<Path, string>, Error>)
    requires Ranked(Passes(site, basePath), rank)
    ensures r.Ok? ==> Complete(Passes(site, basePath), indexPath, r.value)
    ensures r.Ok? ==> exists n :: Run(Passes(site, basePath), indexPath, n) == Ok(State([], r.value))
    ensures r.Err? ==> exists n :: Run(Passes(site, basePath), indexPath, n) == Err(r.error)
  {
    ghost var pass := Passes(site, basePath);
    var remainingFileNames: seq<Path> := [indexPath];
    var parsedFileNames: map<Path, string> := map[];
    ghost var steps: nat := 0;

    while remainingFileNames != []
      invariant Run(pass, indexPath, steps) == Ok(State(remainingFileNames, parsedFileNames))
      decreases Total(pass, rank, remainingFileNames)
    {
      ghost var before := State(remainingFileNames, parsedFileNames);
      RunNext(pass, indexPath, steps, before);
      var remainingFileName := remainingFileNames[|remainingFileNames| - 1];
      remainingFileNames := remainingFileNames[..|remainingFileNames| - 1];

      var parsed := ParseMarkdown(site.files, site.markup, Join(basePath, remainingFileName));
      if parsed.Err? {
        assert pass(remainingFileName) == Err(parsed.error);
        return Err(parsed.error);
      }
      var parsedHtml, parsedLinks := parsed.value.0, parsed.value.1;
      var linkable := GetLinkableFiles(parsedLinks, site.files.Keys);
      if linkable.Err? {
        assert pass(remainingFileName) == Err(linkable.error);
        return Err(linkable.error);
      }
      var linkableFiles := linkable.value;
      assert pass(remainingFileName) == Ok(Outcome(linkableFiles, RenderHtml(site.templates, parsedHtml)));

      remainingFileNames := PushTargets(remainingFileNames, linkableFiles);
      parsedFileNames := parsedFileNames[remainingFileName := RenderHtml(site.templates, parsedHtml)];
      StepDecreases(pass, rank, before);
      steps := steps + 1;
    }
    RunKeepsInvariant(pass, indexPath, steps);
    FinishedState(pass, indexPath, parsedFileNames);
    r := Ok(parsedFileNames);
  }
}
