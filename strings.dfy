/** The few string operations of the Python standard library the generator relies on. */
module Strings {

  /** `s.rfind(c)`: the index of the last occurrence of `c` in `s`, or -1 when there is none. */
  function LastIndexOf(s: string, c: char): (i: int)
    ensures -1 <= i < |s|
    ensures i >= 0 ==> s[i] == c
    ensures forall j :: i < j < |s| ==> s[j] != c
  {
    if s == [] then -1
    else if s[|s| - 1] == c then |s| - 1
    else LastIndexOf(s[..|s| - 1], c)
  }

  /** The three postconditions of LastIndexOf determine its result. */
  lemma LastIndexOfUnique(s: string, c: char, i: int)
    requires -1 <= i < |s|
    requires i >= 0 ==> s[i] == c
    requires forall j :: i < j < |s| ==> s[j] != c
    ensures LastIndexOf(s, c) == i
  {
  }

  /** What LastIndexOf promises about the characters after the index, as a membership fact. */
  lemma NoneAfter(s: string, c: char, i: int)
    requires -1 <= i < |s|
    requires forall j :: i < j < |s| ==> s[j] != c
    ensures c !in s[i + 1..]
  {
    var rest := s[i + 1..];
    forall j | 0 <= j < |rest| ensures rest[j] != c {
      assert rest[j] == s[i + 1 + j];
    }
  }

  lemma SplitAt(s: string, k: nat)
    requires k <= |s|
    ensures s[..k] + s[k..] == s
  {
  }

  /** `"".join(parts)`: read from the back as well as from the front, the last part ends the join. */
  function Concat(parts: seq<string>): (r: string)
    ensures parts != [] ==> r == Concat(parts[..|parts| - 1]) + parts[|parts| - 1]
  {
    if parts == [] then ""
    else
      var n := |parts|;
      assert n >= 2 ==> parts[..n - 1][1..] == parts[1..][..n - 2];
      parts[0] + Concat(parts[1..])
  }

  /** Joining two lists of fragments joins their concatenations. */
  lemma {:induction false} ConcatAppend(a: seq<string>, b: seq<string>)
    ensures Concat(a + b) == Concat(a) + Concat(b)
  {
    if a != [] {
      assert (a + b)[0] == a[0];
      assert (a + b)[1..] == a[1..] + b;
      ConcatAppend(a[1..], b);
      calc {
        Concat(a + b);
        a[0] + Concat(a[1..] + b);
        a[0] + (Concat(a[1..]) + Concat(b));
        (a[0] + Concat(a[1..])) + Concat(b);
      }
    } else {
      assert a + b == b;
    }
  }
}
