/**
 * The part of pathlib the generator relies on: `Path(s)`, a path's name, its
 * suffix, `with_suffix` and the `/` operator. A path is its string form with
 * '/' separators; `Normalize` brings a string to the normal form `Path(s)`
 * keeps, and the other operations take paths in that form.
 */
module Paths {
  import opened Wrappers
  import opened Strings

  type Path = string

  /** Everything up to and including the last '/' (empty when there is none). */
  function Dir(p: Path): Path
  {
    p[..LastIndexOf(p, '/') + 1]
  }

  /** `PurePath.name`: the last component. */
  function Name(p: Path): (n: string)
    ensures '/' !in n
    ensures Dir(p) + n == p
  {
    var i := LastIndexOf(p, '/');
    NoneAfter(p, '/', i);
    assert Dir(p) == p[..i + 1];
    SplitAt(p, i + 1);
    p[i + 1..]
  }

  /** Where the suffix of a name starts: at its last '.', unless that is the first or the last character. */
  function SuffixStart(name: string): (r: Option<nat>)
    ensures r.Some? ==> 0 < r.value < |name| - 1 && name[r.value] == '.'
    ensures r.Some? ==> forall j :: r.value < j < |name| ==> name[j] != '.'
    ensures r.None? ==> forall j :: 0 < j < |name| - 1 ==> name[j] != '.' || exists k :: j < k < |name| && name[k] == '.'
  {
    var i := LastIndexOf(name, '.');
    if 0 < i < |name| - 1 then Some(i) else None
  }

  /** The name without its suffix. */
  function Stem(name: string): (s: string)
    ensures s <= name
  {
    match SuffixStart(name)
    case Some(i) => name[..i]
    case None => name
  }

  /** `PurePath.suffix`. */
  function Suffix(p: Path): (s: string)
    ensures Stem(Name(p)) + s == Name(p)
  {
    var name := Name(p);
    match SuffixStart(name)
    case Some(i) => name[i..]
    case None => ""
  }

  /** The suffixes `with_suffix` accepts without raising ValueError. */
  predicate ValidSuffix(suffix: string)
  {
    '/' !in suffix && (suffix == "" || (suffix[0] == '.' && suffix != "."))
  }

  /** A suffix such as ".md" or ".html": one dot followed by at least one other character. */
  predicate SimpleSuffix(suffix: string)
  {
    |suffix| >= 2 && suffix[0] == '.' && '/' !in suffix && '.' !in suffix[1..]
  }

  /**
   * `PurePath.with_suffix(suffix)`: replaces the suffix of the last component,
   * or appends one when it has none; None stands for the ValueError raised on
   * a path with an empty name.
   */
  function WithSuffix(p: Path, suffix: string): (r: Option<Path>)
    requires ValidSuffix(suffix)
    ensures r.Some? <==> Name(p) != ""
    ensures r.Some? ==> Dir(r.value) == Dir(p) && Name(r.value) == Stem(Name(p)) + suffix
  {
    var name := Name(p);
    if name == "" then None
    else
      var x := Stem(name) + suffix;
      assert '/' !in x by {
        assert forall j :: 0 <= j < |Stem(name)| ==> x[j] == name[j];
        assert forall j :: |Stem(name)| <= j < |x| ==> x[j] == suffix[j - |Stem(name)|];
      }
      DirOfExtension(p, x);
      Some(Dir(p) + x)
  }

  /** Appending a '/'-free string to the directory part of p keeps that directory. */
  lemma DirOfExtension(p: Path, x: string)
    requires '/' !in x
    ensures Dir(Dir(p) + x) == Dir(p)
    ensures Name(Dir(p) + x) == x
  {
    var d := Dir(p);
    var k := LastIndexOf(p, '/');
    LastIndexOfUnique(d + x, '/', k);
  }

  /** Once a simple suffix is attached, it is the path's suffix. */
  lemma SuffixOfWithSuffix(p: Path, suffix: string)
    requires SimpleSuffix(suffix) && Name(p) != ""
    ensures Suffix(WithSuffix(p, suffix).value) == suffix
  {
    var stem := Stem(Name(p));
    var name := stem + suffix;
    assert Name(WithSuffix(p, suffix).value) == name;
    assert stem != "" by {
      if SuffixStart(Name(p)).None? {
        assert stem == Name(p);
      }
    }
    LastIndexOfUnique(name, '.', |stem|);
    assert SuffixStart(name) == Some(|stem|);
    assert name[|stem|..] == suffix;
  }

  /** A simple suffix attached and then replaced leaves no trace: only the last one counts. */
  lemma WithSuffixTwice(p: Path, first: string, second: string)
    requires SimpleSuffix(first) && ValidSuffix(second) && Name(p) != ""
    ensures WithSuffix(WithSuffix(p, first).value, second) == WithSuffix(p, second)
  {
    var q := WithSuffix(p, first).value;
    SuffixOfWithSuffix(p, first);
    var stem := Stem(Name(p));
    assert Name(q) == stem + first;
    assert Stem(Name(q)) == stem;
  }

  /** A path whose name has no suffix gets the new suffix appended verbatim. */
  lemma WithSuffixAppends(p: Path, suffix: string)
    requires ValidSuffix(suffix) && Name(p) != "" && Suffix(p) == ""
    ensures WithSuffix(p, suffix) == Some(p + suffix)
  {
    assert Stem(Name(p)) == Name(p);
    assert Dir(p) + (Name(p) + suffix) == (Dir(p) + Name(p)) + suffix;
  }

  /**
   * The `/` operator on normalised paths: an absolute right-hand side
   * replaces the left one, and a relative one goes under it. Under the
   * current directory (the empty string here) it stays relative, and under
   * the root no second '/' is written.
   */
  function Join(dir: Path, rel: Path): Path
  {
    if |rel| > 0 && rel[0] == '/' then rel
    else if dir == "" then rel
    else if dir == "/" then "/" + rel
    else dir + "/" + rel
  }

  /**
   * The result ends with the right-hand side and has its name; an absolute
   * right-hand side is the result, a relative one follows the left side and
   * one '/' (none under the current directory, just one under the root).
   */
  lemma JoinEnds(dir: Path, rel: Path)
    ensures |rel| <= |Join(dir, rel)| && Join(dir, rel)[|Join(dir, rel)| - |rel|..] == rel
    ensures Name(Join(dir, rel)) == Name(rel)
    ensures |rel| > 0 && rel[0] == '/' ==> Join(dir, rel) == rel
    ensures !(|rel| > 0 && rel[0] == '/') && dir == "" ==> Join(dir, rel) == rel
    ensures !(|rel| > 0 && rel[0] == '/') && dir == "/" ==> Join(dir, rel) == "/" + rel
    ensures !(|rel| > 0 && rel[0] == '/') && dir != "" && dir != "/" ==>
      dir + "/" <= Join(dir, rel) && |Join(dir, rel)| == |dir| + 1 + |rel|
  {
    var r := Join(dir, rel);
    if (|rel| > 0 && rel[0] == '/') || dir == "" {
      assert r[0..] == rel;
    } else if dir == "/" {
      assert r == "" + "/" + rel;
      assert r[|r| - |rel|..] == rel;
      NameAfterSlash("", rel);
    } else {
      assert r == (dir + "/") + rel;
      assert r[|r| - |rel|..] == rel;
      NameAfterSlash(dir, rel);
    }
  }

  /** What follows the last '/' of `d/rel` is the name of rel. */
  lemma NameAfterSlash(d: Path, rel: Path)
    ensures Name(d + "/" + rel) == Name(rel)
  {
    var s := d + "/" + rel;
    var j := LastIndexOf(rel, '/');
    var k := |d| + 1 + j;
    forall t | k < t < |s| ensures s[t] != '/' {
      assert s[t] == rel[t - |d| - 1];
    }
    assert s[k] == '/' by {
      if j >= 0 {
        assert s[k] == rel[j];
      }
    }
    LastIndexOfUnique(s, '/', k);
    assert s[k + 1..] == rel[j + 1..];
  }

  // ---------------------------------------------------------------------------
  // Path(s): the normal form of a path string

  /** The pieces of a string between its '/' separators, empty pieces included. */
  function Split(p: string): (r: seq<string>)
    ensures |r| >= 1
    ensures forall i :: 0 <= i < |r| ==> '/' !in r[i]
  {
    var i := LastIndexOf(p, '/');
    NoneAfter(p, '/', i);
    if i < 0 then
      assert p[i + 1..] == p;
      [p]
    else
      Split(p[..i]) + [p[i + 1..]]
  }

  /** The pieces joined by single '/'s. */
  function JoinParts(parts: seq<string>): string
  {
    if parts == [] then ""
    else if |parts| == 1 then parts[0]
    else JoinParts(parts[..|parts| - 1]) + "/" + parts[|parts| - 1]
  }

  /** The components `Path(s)` keeps: the empty pieces of repeated or trailing '/'s and "." are dropped. */
  function Kept(parts: seq<string>): (r: seq<string>)
    ensures forall i :: 0 <= i < |r| ==> r[i] != "" && r[i] != "."
    ensures forall i :: 0 <= i < |r| ==> r[i] in parts
    ensures forall c :: c in r <==> c in parts && c != "" && c != "."
  {
    if parts == [] then []
    else
      var last := parts[|parts| - 1];
      var init := Kept(parts[..|parts| - 1]);
      assert forall c :: c in parts <==> c in parts[..|parts| - 1] || c == last by {
        assert parts == parts[..|parts| - 1] + [last];
      }
      if last == "" || last == "." then init else init + [last]
  }

  /** A single piece survives exactly when it is neither empty nor ".". */
  lemma KeptSingle(c: string)
    ensures Kept([c]) == if c == "" || c == "." then [] else [c]
  {
    assert [c][..0] == [];
  }

  /** Pieces are kept or dropped one by one, in order: keeping distributes over concatenation. */
  lemma {:induction false} KeptAppend(a: seq<string>, b: seq<string>)
    ensures Kept(a + b) == Kept(a) + Kept(b)
  {
    if b == [] {
      assert a + b == a;
    } else {
      var init := b[..|b| - 1];
      KeptAppend(a, init);
      assert (a + b)[..|a + b| - 1] == a + init;
      assert (a + b)[|a + b| - 1] == b[|b| - 1];
    }
  }

  /**
   * `Path(s)` on a POSIX system: a leading '/' is kept, and the remaining
   * components are the non-empty ones other than ".". The current directory,
   * which pathlib prints as ".", is the empty string here; like it, it has
   * an empty name.
   */
  function Normalize(p: string): (r: Path)
    ensures (r != "" && r[0] == '/') <==> (p != "" && p[0] == '/')
  {
    var lead := if p != "" && p[0] == '/' then "/" else "";
    var parts := Kept(Split(p));
    KeptHead(Split(p));
    lead + JoinParts(parts)
  }

  /** The first character of joined components is that of the first component. */
  lemma {:induction false} JoinPartsHead(parts: seq<string>)
    requires parts != [] && parts[0] != ""
    ensures JoinParts(parts) != "" && JoinParts(parts)[0] == parts[0][0]
  {
    if |parts| > 1 {
      JoinPartsHead(parts[..|parts| - 1]);
    }
  }

  /** Kept components are non-empty and free of '/', so their join does not start with '/'. */
  lemma KeptHead(parts: seq<string>)
    requires forall i :: 0 <= i < |parts| ==> '/' !in parts[i]
    ensures Kept(parts) != [] ==> JoinParts(Kept(parts)) != "" && JoinParts(Kept(parts))[0] != '/'
  {
    var k := Kept(parts);
    if k != [] {
      JoinPartsHead(k);
      assert k[0] in parts;
      var j :| 0 <= j < |parts| && parts[j] == k[0];
      assert '/' !in k[0];
      assert k[0][0] in k[0];
    }
  }

  /** Splitting joined components gives them back. */
  lemma {:induction false} SplitJoin(parts: seq<string>)
    requires parts != []
    requires forall i :: 0 <= i < |parts| ==> '/' !in parts[i]
    ensures Split(JoinParts(parts)) == parts
  {
    var last := parts[|parts| - 1];
    if |parts| == 1 {
      SplitWhole(last);
    } else {
      var init := parts[..|parts| - 1];
      assert forall i :: 0 <= i < |init| ==> init[i] == parts[i];
      SplitJoin(init);
      assert init + [last] == parts;
      SplitJoinStep(init, last);
    }
  }

  /** One more component joined after a '/' is split off again. */
  lemma SplitJoinStep(init: seq<string>, last: string)
    requires init != [] && '/' !in last && Split(JoinParts(init)) == init
    ensures Split(JoinParts(init + [last])) == init + [last]
  {
    assert (init + [last])[..|init|] == init;
    assert JoinParts(init + [last]) == JoinParts(init) + "/" + last;
    SplitSnoc(JoinParts(init), last);
  }

  /** A string without '/' is a single piece. */
  lemma SplitWhole(s: string)
    requires '/' !in s
    ensures Split(s) == [s]
  {
    LastIndexOfUnique(s, '/', -1);
    assert s[0..] == s;
  }

  /** A last component after a '/' is split off as the last piece. */
  lemma SplitSnoc(j: string, last: string)
    requires '/' !in last
    ensures Split(j + "/" + last) == Split(j) + [last]
  {
    var s := j + "/" + last;
    assert LastIndexOf(s, '/') == |j| by {
      forall k | |j| < k < |s| ensures s[k] != '/' {
        assert s[k] == last[k - |j| - 1];
        assert last[k - |j| - 1] in last;
      }
      LastIndexOfUnique(s, '/', |j|);
    }
    assert s[..|j|] == j && s[|j| + 1..] == last;
  }

  /** A leading empty component joins as a leading '/'. */
  lemma {:induction false} JoinPartsLead(parts: seq<string>)
    requires parts != []
    ensures JoinParts([""] + parts) == "/" + JoinParts(parts)
  {
    if |parts| > 1 {
      var init := parts[..|parts| - 1];
      JoinPartsLead(init);
      assert ([""] + parts)[..|parts|] == [""] + init;
    }
  }

  /** A leading empty component is dropped. */
  lemma {:induction false} KeptLead(parts: seq<string>)
    ensures Kept([""] + parts) == Kept(parts)
  {
    if parts != [] {
      KeptLead(parts[..|parts| - 1]);
      assert ([""] + parts)[..|parts|] == [""] + parts[..|parts| - 1];
    }
  }

  /** Components of a normal form: non-empty, other than ".", without '/'. */
  predicate Components(parts: seq<string>)
  {
    forall i :: 0 <= i < |parts| ==> parts[i] != "" && parts[i] != "." && '/' !in parts[i]
  }

  /** The components `Path(s)` keeps from a split string are components of a normal form. */
  lemma KeptComponents(p: string)
    ensures Components(Kept(Split(p)))
  {
    var k := Kept(Split(p));
    forall i | 0 <= i < |k| ensures '/' !in k[i] {
      var j :| 0 <= j < |Split(p)| && Split(p)[j] == k[i];
    }
  }

  /** Components of a normal form are all kept. */
  lemma {:induction false} KeptAll(parts: seq<string>)
    requires Components(parts)
    ensures Kept(parts) == parts
  {
    if parts != [] {
      KeptAll(parts[..|parts| - 1]);
      assert parts[..|parts| - 1] + [parts[|parts| - 1]] == parts;
    }
  }

  /** A relative path in normal form is its own normal form. */
  lemma NormalizeRelative(parts: seq<string>)
    requires Components(parts)
    ensures Normalize(JoinParts(parts)) == JoinParts(parts)
  {
    if parts == [] {
      LastIndexOfUnique("", '/', -1);
      assert Split("") == [""];
    } else {
      JoinPartsHead(parts);
      assert parts[0][0] in parts[0];
      SplitJoin(parts);
      KeptAll(parts);
    }
  }

  /** An absolute path in normal form is its own normal form. */
  lemma NormalizeAbsolute(parts: seq<string>)
    requires Components(parts)
    ensures Normalize("/" + JoinParts(parts)) == "/" + JoinParts(parts)
  {
    if parts == [] {
      assert Split("/") == [""] + [""] by {
        LastIndexOfUnique("/", '/', 0);
        LastIndexOfUnique("", '/', -1);
        assert "/"[..0] == "" && "/"[1..] == "";
        assert Split("") == [""];
      }
      KeptLead([""]);
    } else {
      JoinPartsLead(parts);
      SplitJoin([""] + parts);
      KeptLead(parts);
      KeptAll(parts);
    }
  }

  /** `Path(str(Path(s))) == Path(s)`: a normal form is its own normal form. */
  lemma NormalizeTwice(p: string)
    ensures Normalize(Normalize(p)) == Normalize(p)
  {
    var k := Kept(Split(p));
    KeptComponents(p);
    if p != "" && p[0] == '/' {
      assert Normalize(p) == "/" + JoinParts(k);
      NormalizeAbsolute(k);
    } else {
      assert Normalize(p) == "" + JoinParts(k) == JoinParts(k);
      NormalizeRelative(k);
    }
  }

  /** A single component other than "." is already in normal form. */
  lemma NormalizeComponent(s: string)
    requires s != "" && s != "." && '/' !in s
    ensures Normalize(s) == s
  {
    assert JoinParts([s]) == s;
    NormalizeRelative([s]);
  }

  /** A leading "./" names the same file: `Path("./about")` is `about`. */
  lemma NormalizeDotPrefix(c: string)
    requires c != "" && c != "." && '/' !in c
    ensures Normalize("./" + c) == c
  {
    var p := "./" + c;
    SplitWhole(".");
    SplitSnoc(".", c);
    assert p == "." + "/" + c;
    assert [".", c][..1] == ["."] && ["."][..0] == [];
    assert Kept([".", c]) == [c];
    assert p[0] == '.';
  }

  /** A trailing slash is dropped: `Path("posts/")` is `posts`. */
  lemma NormalizeTrailingSlash(c: string)
    requires c != "" && c != "." && '/' !in c
    ensures Normalize(c + "/") == c
  {
    var p := c + "/";
    SplitWhole(c);
    SplitSnoc(c, "");
    assert p == c + "/" + "";
    assert [c, ""][..1] == [c] && [c][..0] == [];
    assert Kept([c]) == [c];
    assert Kept([c, ""]) == [c];
    assert p[0] == c[0] != '/' by {
      assert c[0] in c;
    }
  }

  /** Repeated slashes collapse: `Path("a//b")` is `a/b`. */
  lemma NormalizeDoubleSlash(c: string, d: string)
    requires c != "" && c != "." && '/' !in c
    requires d != "" && d != "." && '/' !in d
    ensures Normalize(c + "//" + d) == c + "/" + d
  {
    var q := c + "/";
    var p := q + "/" + d;
    assert c + "//" + d == p;
    assert Split(q) == [c, ""] by {
      SplitWhole(c);
      SplitSnoc(c, "");
      assert q == c + "/" + "";
    }
    assert Split(p) == [c, "", d] by {
      SplitSnoc(q, d);
    }
    assert Kept([c, "", d]) == [c, d] by {
      var parts := [c, "", d];
      assert parts[..2] == [c, ""] && [c, ""][..1] == [c] && [c][..0] == [];
      assert Kept([c]) == [c];
      assert Kept([c, ""]) == [c];
    }
    assert JoinParts([c, d]) == c + "/" + d by {
      assert [c, d][..1] == [c];
    }
    assert p[0] == c[0] != '/' by {
      assert c[0] in c;
    }
  }

  /** The current directory has no name: `Path(".")` ends up with an empty name. */
  lemma NormalizeDot()
    ensures Normalize(".") == "" && Name(Normalize(".")) == ""
  {
    SplitWhole(".");
    assert Kept(["."]) == [] by {
      assert ["."][..0] == [];
    }
    LastIndexOfUnique("", '/', -1);
  }

  /**
   * Splitting `Path(s)` gives back exactly the pieces of s that are neither
   * empty nor ".", in order, after one empty piece for a leading '/'.
   */
  lemma NormalizeSplit(p: string)
    requires Kept(Split(p)) != []
    ensures p != "" && p[0] == '/' ==> Split(Normalize(p)) == [""] + Kept(Split(p))
    ensures !(p != "" && p[0] == '/') ==> Split(Normalize(p)) == Kept(Split(p))
  {
    var k := Kept(Split(p));
    KeptComponents(p);
    if p != "" && p[0] == '/' {
      assert Normalize(p) == "/" + JoinParts(k);
      SplitLead(k);
    } else {
      assert Normalize(p) == "" + JoinParts(k) == JoinParts(k);
      assert forall i :: 0 <= i < |k| ==> '/' !in k[i];
      SplitJoin(k);
    }
  }

  /** A leading '/' before joined components splits off as one empty piece. */
  lemma SplitLead(k: seq<string>)
    requires k != [] && Components(k)
    ensures Split("/" + JoinParts(k)) == [""] + k
  {
    JoinPartsLead(k);
    var parts := [""] + k;
    assert forall i :: 0 <= i < |parts| ==> '/' !in parts[i] by {
      forall i | 0 <= i < |parts| ensures '/' !in parts[i] {
        if i > 0 {
          assert parts[i] == k[i - 1];
        }
      }
    }
    SplitJoin(parts);
  }
}
