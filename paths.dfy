/**
  Path strings as the resolver handles them: splitting on the separator
  (the way the prim walk turns a prim path into tokens), the base name of a
  reference and the joining of a directory with a relative part.
 */
module Paths {

  const Sep: char := '/'

  /** A single path segment: non-empty and free of separators. */
  predicate IsName(n: string) {
    n != [] && Sep !in n
  }

  /** A name a directory entry can have: a segment other than `.` and `..`. */
  predicate IsEntryName(n: string) {
    IsName(n) && n != "." && n != ".."
  }

  /** Length of the longest prefix of `s` that holds no separator. */
  function TokenLength(s: string): (k: nat)
    ensures k <= |s|
    ensures Sep !in s[..k]
    ensures k < |s| ==> s[k] == Sep
  {
    if s == [] || s[0] == Sep then 0
    else
      var k := 1 + TokenLength(s[1..]);
      assert s[..k] == [s[0]] + s[1..][..k - 1];
      k
  }

  /**
    Splits `s` at every separator and drops the empty pieces, in order
    (strtok-style tokenising): "/robot" gives ["robot"], "/a//b/" gives
    ["a", "b"], "/" gives [].
   */
  function Segments(s: string): seq<string>
    decreases |s|
  {
    if s == [] then []
    else if s[0] == Sep then Segments(s[1..])
    else
      var k := TokenLength(s);
      [s[..k]] + Segments(s[k..])
  }

  /** Every token is a proper segment: non-empty, without separators. */
  lemma {:induction false} SegmentsAreNames(s: string)
    ensures forall i :: 0 <= i < |Segments(s)| ==> IsName(Segments(s)[i])
    decreases |s|
  {
    if s != [] {
      if s[0] == Sep {
        SegmentsAreNames(s[1..]);
      } else {
        SegmentsAreNames(s[TokenLength(s)..]);
      }
    }
  }

  /** The path of the entry `b` inside the directory `a`, as a directory iterator spells it: one separator in between. */
  function EntryPath(a: string, b: string): string {
    a + [Sep] + b
  }

  /** `s` without its trailing separators. */
  function TrimTrailing(s: string): string
    decreases |s|
  {
    if s != [] && s[|s| - 1] == Sep then TrimTrailing(s[..|s| - 1]) else s
  }

  /** `s` without its leading separators. */
  function TrimLeading(s: string): string
    decreases |s|
  {
    if s != [] && s[0] == Sep then TrimLeading(s[1..]) else s
  }

  /**
    Joins two paths the way the path utility does: the separators where the
    two parts meet collapse into one.
   */
  function JoinPaths(a: string, b: string): string {
    EntryPath(TrimTrailing(a), TrimLeading(b))
  }

  /** The part of `s` after its last separator (all of `s` when it has none). */
  function Basename(s: string): string
    decreases |s|
  {
    if s == [] || s[|s| - 1] == Sep then []
    else Basename(s[..|s| - 1]) + [s[|s| - 1]]
  }

  /**
    The base name is the longest separator-free suffix: a suffix of `s`
    without separators, preceded by a separator unless it is all of `s`.
   */
  lemma {:induction false} BasenameSpec(s: string)
    ensures var r := Basename(s);
      && |r| <= |s| && r == s[|s| - |r|..]
      && Sep !in r
      && (|r| < |s| ==> s[|s| - |r| - 1] == Sep)
    decreases |s|
  {
    if s != [] && s[|s| - 1] != Sep {
      var init := s[..|s| - 1];
      BasenameSpec(init);
      var r := Basename(s);
      assert r == Basename(init) + [s[|s| - 1]];
      assert init[|init| - |Basename(init)|..] + [s[|s| - 1]] == s[|s| - |r|..];
    }
  }

  /** A name splits into itself. */
  lemma SegmentsOfName(n: string)
    requires IsName(n)
    ensures Segments(n) == [n]
  {
    var k := TokenLength(n);
    assert n[..k] == n && n[k..] == [];
  }

  /** A separator in front of a name yields one token: a top-level prim path. */
  lemma TopLevelPath(n: string)
    requires IsName(n)
    ensures Segments([Sep] + n) == [n]
  {
    assert ([Sep] + n)[1..] == n;
    SegmentsOfName(n);
  }

  /** Splitting at an inserted separator splits the two sides apart. */
  lemma {:induction false} SegmentsOfEntryPath(a: string, b: string)
    ensures Segments(EntryPath(a, b)) == Segments(a) + Segments(b)
    decreases |a|
  {
    var s := EntryPath(a, b);
    if a == [] {
      assert s[1..] == b;
    } else if a[0] == Sep {
      assert s[1..] == EntryPath(a[1..], b);
      SegmentsOfEntryPath(a[1..], b);
    } else {
      var ka := TokenLength(a);
      TokenLengthOfEntryPath(a, b);
      assert s[..ka] == a[..ka];
      assert s[ka..] == EntryPath(a[ka..], b);
      SegmentsOfEntryPath(a[ka..], b);
    }
  }

  /** The first token of a joined path ends no later than the separator. */
  lemma {:induction false} TokenLengthOfEntryPath(a: string, b: string)
    ensures TokenLength(EntryPath(a, b)) == TokenLength(a)
    decreases |a|
  {
    var s := EntryPath(a, b);
    if a != [] && a[0] != Sep {
      assert s[1..] == EntryPath(a[1..], b);
      TokenLengthOfEntryPath(a[1..], b);
    }
  }

  /** A nested prim path "/a/b" splits into two tokens, so it is not top level. */
  lemma NestedPath(a: string, b: string)
    requires IsName(a) && IsName(b)
    ensures Segments(EntryPath([Sep] + a, b)) == [a, b]
  {
    SegmentsOfEntryPath([Sep] + a, b);
    TopLevelPath(a);
    SegmentsOfName(b);
  }

  /** Trailing separators produce no token. */
  lemma {:induction false} SegmentsOfTrimTrailing(s: string)
    ensures Segments(TrimTrailing(s)) == Segments(s)
    decreases |s|
  {
    if s != [] && s[|s| - 1] == Sep {
      var init := s[..|s| - 1];
      SegmentsOfTrimTrailing(init);
      SegmentsOfEntryPath(init, []);
      assert EntryPath(init, []) == s;
    }
  }

  /** Leading separators produce no token. */
  lemma {:induction false} SegmentsOfTrimLeading(s: string)
    ensures Segments(TrimLeading(s)) == Segments(s)
    decreases |s|
  {
    if s != [] && s[0] == Sep {
      SegmentsOfTrimLeading(s[1..]);
    }
  }

  /** Splitting a joined path splits its two parts apart, however many separators meet in between. */
  lemma SegmentsOfJoin(a: string, b: string)
    ensures Segments(JoinPaths(a, b)) == Segments(a) + Segments(b)
  {
    SegmentsOfEntryPath(TrimTrailing(a), TrimLeading(b));
    SegmentsOfTrimTrailing(a);
    SegmentsOfTrimLeading(b);
  }

  /** The trimmed parts keep no separator at the seam: it is `TrimTrailing(a)` and `TrimLeading(b)` around exactly one separator. */
  lemma {:induction false} TrimmedEnds(a: string, b: string)
    ensures TrimTrailing(a) == [] || TrimTrailing(a)[|TrimTrailing(a)| - 1] != Sep
    ensures TrimLeading(b) == [] || TrimLeading(b)[0] != Sep
    ensures TrimTrailing(a) <= a && |TrimLeading(b)| <= |b| && TrimLeading(b) == b[|b| - |TrimLeading(b)|..]
    ensures forall i :: |TrimTrailing(a)| <= i < |a| ==> a[i] == Sep
    ensures forall i :: 0 <= i < |b| - |TrimLeading(b)| ==> b[i] == Sep
    decreases |a| + |b|
  {
    if a != [] && a[|a| - 1] == Sep {
      TrimmedEnds(a[..|a| - 1], b);
    } else if b != [] && b[0] == Sep {
      TrimmedEnds(a, b[1..]);
    }
  }

  /** A reference directory written with a leading separator under a directory path ending in one gets a single separator. */
  lemma JoinCollapsesSeparators()
    ensures JoinPaths("/abs/dir/", "props/") == "/abs/dir/props/"
    ensures JoinPaths("/abs/dir/", "/props/") == "/abs/dir/props/"
    ensures JoinPaths("/abs/dir", "props") == "/abs/dir/props"
  {
  }
}
