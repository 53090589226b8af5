/**
  The part of the filesystem the resolver walks: a tree of directories and
  files, the lookup of a path in it, the recursive listing of every
  directory below a path, and the search-path list that registration
  appends to.
 */
module FileSystem {
  import opened Wrappers
  import opened Paths

  /** A directory entry; a directory lists its entries in iteration order. */
  datatype Entry = File(name: string) | Directory(name: string, entries: seq<Entry>)

  /** The first entry of `entries` called `name`. */
  function Child(entries: seq<Entry>, name: string): (r: Option<Entry>)
    ensures r.Some? ==> r.value in entries && r.value.name == name
    ensures r.None? ==> forall e :: e in entries ==> e.name != name
  {
    if entries == [] then None
    else if entries[0].name == name then Some(entries[0])
    else Child(entries[1..], name)
  }

  /**
    Follows the segments `names` from the last entry of `trail`, the
    entries visited from the root down. Each step needs a directory to step
    from: `.` stays in it, `..` goes back to the directory it was entered
    from (the root is its own parent), and a name enters the entry of that
    name. A missing entry, or a file that is not the last step, fails.
   */
  function Walk(trail: seq<Entry>, names: seq<string>): Option<Entry>
    requires trail != []
    decreases names
  {
    var here := trail[|trail| - 1];
    if names == [] then Some(here)
    else if !here.Directory? then None
    else if names[0] == "." then Walk(trail, names[1..])
    else if names[0] == ".." then Walk(if |trail| == 1 then trail else trail[..|trail| - 1], names[1..])
    else
      match Child(here.entries, names[0])
      case None => None
      case Some(c) => Walk(trail + [c], names[1..])
  }

  /** The entry at `path`, `root` being the filesystem root. */
  function Lookup(root: Entry, path: string): Option<Entry> {
    Walk([root], Segments(path))
  }

  /** What a directory test on `path` answers. */
  predicate IsDirectory(root: Entry, path: string) {
    Lookup(root, path).Some? && Lookup(root, path).value.Directory?
  }

  /**
    A real directory tree: in every directory the entries have distinct
    names, and each name is a proper entry name.
   */
  predicate WellFormed(e: Entry)
    decreases e
  {
    e.Directory? ==>
      && DistinctNames(e.entries)
      && forall i :: 0 <= i < |e.entries| ==> IsEntryName(e.entries[i].name) && WellFormed(e.entries[i])
  }

  /** The filesystems the resolver runs on. */
  type FileTree = e: Entry | WellFormed(e) witness Directory("", [])

  /** Joins a path with a sequence of names, one separator each. */
  function JoinAll(path: string, names: seq<string>): string
    decreases names
  {
    if names == [] then path else JoinAll(EntryPath(path, names[0]), names[1..])
  }

  /**
    Every directory strictly below `e`, which lives at `path`, in the order a
    depth-first walk meets them: each subdirectory comes right before the
    directories inside it.
   */
  function SubdirsOf(path: string, e: Entry): seq<string>
    decreases e, 1
  {
    if e.File? then [] else SubdirsFrom(path, e, 0)
  }

  /** What the walk of `SubdirsOf` meets from the `i`-th entry of `e` onwards. */
  function SubdirsFrom(path: string, e: Entry, i: nat): seq<string>
    requires e.Directory? && i <= |e.entries|
    decreases e, 0, |e.entries| - i
  {
    if i == |e.entries| then []
    else
      var c := e.entries[i];
      var here := if c.Directory? then [EntryPath(path, c.name)] + SubdirsOf(EntryPath(path, c.name), c) else [];
      here + SubdirsFrom(path, e, i + 1)
  }

  /** The directories the walk from `path` in the tree `root` meets; none when there is no directory there. */
  function DirectoriesUnder(root: Entry, path: string): seq<string> {
    match Lookup(root, path)
    case Some(d) => SubdirsOf(path, d)
    case None => []
  }

  /** `names` leads from the directory `e` through directories only, at least one step down. */
  ghost predicate Below(e: Entry, names: seq<string>)
    decreases e
  {
    && e.Directory?
    && names != []
    && exists c :: c in e.entries && c.Directory? && c.name == names[0] && (|names| == 1 || Below(c, names[1..]))
  }

  /** No two entries of a directory share a name, as on a real filesystem. */
  predicate DistinctNames(entries: seq<Entry>) {
    forall i, j :: 0 <= i < j < |entries| ==> entries[i].name != entries[j].name
  }

  lemma {:induction false} SubdirsFromHas(path: string, e: Entry, i: nat, j: nat, p: string)
    requires e.Directory? && i <= j < |e.entries| && e.entries[j].Directory?
    requires var c := e.entries[j]; p == EntryPath(path, c.name) || p in SubdirsOf(EntryPath(path, c.name), c)
    ensures p in SubdirsFrom(path, e, i)
    decreases j - i
  {
    if i < j {
      SubdirsFromHas(path, e, i + 1, j, p);
    }
  }

  /** Every directory reachable below `e` is listed by the walk. */
  lemma {:induction false} SubdirsComplete(path: string, e: Entry, names: seq<string>)
    requires Below(e, names)
    ensures JoinAll(path, names) in SubdirsOf(path, e)
    decreases e
  {
    var c :| c in e.entries && c.Directory? && c.name == names[0] && (|names| == 1 || Below(c, names[1..]));
    var j :| 0 <= j < |e.entries| && e.entries[j] == c;
    var p := JoinAll(path, names);
    assert p == JoinAll(EntryPath(path, c.name), names[1..]);
    if |names| > 1 {
      SubdirsComplete(EntryPath(path, c.name), c, names[1..]);
    }
    SubdirsFromHas(path, e, 0, j, p);
  }

  lemma {:induction false} SubdirsFromWitness(path: string, e: Entry, i: nat, p: string)
    requires e.Directory? && i <= |e.entries| && p in SubdirsFrom(path, e, i)
    ensures exists j :: (i <= j < |e.entries| && e.entries[j].Directory? &&
      (p == EntryPath(path, e.entries[j].name) || p in SubdirsOf(EntryPath(path, e.entries[j].name), e.entries[j])))
    decreases |e.entries| - i
  {
    var c := e.entries[i];
    if !(c.Directory? && (p == EntryPath(path, c.name) || p in SubdirsOf(EntryPath(path, c.name), c))) {
      SubdirsFromWitness(path, e, i + 1, p);
    }
  }

  /** Everything the walk lists is a directory reachable below `e`. */
  lemma {:induction false} SubdirsSound(path: string, e: Entry, p: string)
    requires p in SubdirsOf(path, e)
    ensures exists names :: Below(e, names) && JoinAll(path, names) == p
    decreases e
  {
    SubdirsFromWitness(path, e, 0, p);
    var j :| 0 <= j < |e.entries| && e.entries[j].Directory? &&
      (p == EntryPath(path, e.entries[j].name) || p in SubdirsOf(EntryPath(path, e.entries[j].name), e.entries[j]));
    var c := e.entries[j];
    assert c in e.entries;
    if p == EntryPath(path, c.name) {
      var names := [c.name];
      assert Below(e, names);
      assert JoinAll(path, names) == p;
    } else {
      SubdirsSound(EntryPath(path, c.name), c, p);
      var rest :| Below(c, rest) && JoinAll(EntryPath(path, c.name), rest) == p;
      var names := [c.name] + rest;
      assert names[1..] == rest;
      assert Below(e, names);
      assert JoinAll(path, names) == p;
    }
  }

  /** Entering one more entry after a walk looks that name up in the directory the walk found. */
  lemma {:induction false} WalkSnoc(trail: seq<Entry>, names: seq<string>, n: string)
    requires trail != [] && IsEntryName(n)
    ensures Walk(trail, names + [n]) ==
      match Walk(trail, names)
      case Some(Directory(_, es)) => Child(es, n)
      case _ => None
    decreases names
  {
    if names != [] {
      assert (names + [n])[0] == names[0] && (names + [n])[1..] == names[1..] + [n];
      var here := trail[|trail| - 1];
      if here.Directory? {
        if names[0] == "." {
          WalkSnoc(trail, names[1..], n);
        } else if names[0] == ".." {
          WalkSnoc(if |trail| == 1 then trail else trail[..|trail| - 1], names[1..], n);
        } else {
          match Child(here.entries, names[0])
          case None =>
          case Some(c) => WalkSnoc(trail + [c], names[1..], n);
        }
      }
    } else {
      assert [n][1..] == [];
    }
  }

  /** Without `.` and `..` a walk never steps back: it ends where the plain descent from the last entry ends. */
  lemma {:induction false} WalkOfCanonical(trail: seq<Entry>, names: seq<string>)
    requires trail != [] && forall i :: 0 <= i < |names| ==> IsEntryName(names[i])
    ensures Walk(trail, names) == Walk([trail[|trail| - 1]], names)
    decreases names
  {
    var here := trail[|trail| - 1];
    if names != [] && here.Directory? {
      match Child(here.entries, names[0])
      case None =>
      case Some(c) =>
        WalkOfCanonical(trail + [c], names[1..]);
        WalkOfCanonical([here] + [c], names[1..]);
    }
  }

  lemma {:induction false} ChildOfDistinct(entries: seq<Entry>, i: nat)
    requires i < |entries| && DistinctNames(entries)
    ensures Child(entries, entries[i].name) == Some(entries[i])
  {
    if i > 0 {
      assert entries[0].name != entries[i].name;
      assert DistinctNames(entries[1..]) by {
        forall a, b | 0 <= a < b < |entries[1..]| ensures entries[1..][a].name != entries[1..][b].name {
          assert entries[1..][a] == entries[a + 1] && entries[1..][b] == entries[b + 1];
        }
      }
      ChildOfDistinct(entries[1..], i - 1);
    }
  }

  /** Every entry a walk through real trees finds is itself a real tree. */
  lemma {:induction false} WalkWellFormed(trail: seq<Entry>, names: seq<string>)
    requires trail != [] && forall i :: 0 <= i < |trail| ==> WellFormed(trail[i])
    ensures Walk(trail, names).Some? ==> WellFormed(Walk(trail, names).value)
    decreases names
  {
    var here := trail[|trail| - 1];
    if names != [] && here.Directory? {
      if names[0] == "." {
        WalkWellFormed(trail, names[1..]);
      } else if names[0] == ".." {
        WalkWellFormed(if |trail| == 1 then trail else trail[..|trail| - 1], names[1..]);
      } else {
        match Child(here.entries, names[0])
        case None =>
        case Some(c) =>
          var i :| 0 <= i < |here.entries| && here.entries[i] == c;
          assert WellFormed(here);
          WalkWellFormed(trail + [c], names[1..]);
      }
    }
  }

  /**
    In a real tree the path the directory iterator produces for an entry
    leads back to that entry, so testing the path for being a directory is
    asking the entry itself.
   */
  lemma EntryPathLooksUpEntry(root: Entry, path: string, d: Entry, i: nat)
    requires WellFormed(root) && Lookup(root, path) == Some(d) && d.Directory? && i < |d.entries|
    ensures Lookup(root, EntryPath(path, d.entries[i].name)) == Some(d.entries[i])
    ensures IsDirectory(root, EntryPath(path, d.entries[i].name)) == d.entries[i].Directory?
  {
    var n := d.entries[i].name;
    WalkWellFormed([root], Segments(path));
    SegmentsOfEntryPath(path, n);
    SegmentsOfName(n);
    WalkSnoc([root], Segments(path), n);
    ChildOfDistinct(d.entries, i);
  }

  /** A tree with the directories `/a` and `/t/w`. */
  function SampleTree(a: string, t: string, w: string): Entry {
    Directory("", [Directory(a, []), Directory(t, [Directory(w, [])])])
  }

  /** Any path that leads to `/t` lists `w` below it, spelt under that path. */
  lemma SampleDirectories(a: string, t: string, w: string, path: string)
    requires Lookup(SampleTree(a, t, w), path) == Some(Directory(t, [Directory(w, [])]))
    ensures DirectoriesUnder(SampleTree(a, t, w), path) == [EntryPath(path, w)]
  {
    var td := Directory(t, [Directory(w, [])]);
    assert SubdirsOf(EntryPath(path, w), Directory(w, [])) == [];
    assert SubdirsFrom(path, td, 1) == [];
    assert SubdirsFrom(path, td, 0) == [EntryPath(path, w)] + [] + [];
  }

  /** `/x/../t` splits into `x`, `..`, `t`. */
  lemma SegmentsOfParent(x: string, t: string)
    requires IsEntryName(x) && IsEntryName(t)
    ensures Segments(EntryPath(EntryPath([Sep] + x, ".."), t)) == [x, "..", t]
  {
    SegmentsOfEntryPath(EntryPath([Sep] + x, ".."), t);
    SegmentsOfEntryPath([Sep] + x, "..");
    TopLevelPath(x);
    SegmentsOfName("..");
    SegmentsOfName(t);
  }

  /** In the sample tree `/a/../t` leads to `/t`: `a` is a directory to step back from. */
  lemma ParentOfDirectory(a: string, t: string, w: string)
    requires IsEntryName(a) && IsEntryName(t) && a != t
    ensures Lookup(SampleTree(a, t, w), EntryPath(EntryPath([Sep] + a, ".."), t)) == Some(Directory(t, [Directory(w, [])]))
  {
    var tree := SampleTree(a, t, w);
    var es := tree.entries;
    var td := Directory(t, [Directory(w, [])]);
    SegmentsOfParent(a, t);
    var segs := [a, "..", t];
    assert segs[1..] == ["..", t] && segs[1..][1..] == [t] && [t][1..] == [];
    assert Child(es, a) == Some(es[0]);
    assert Child(es, t) == Some(td) by {
      assert es[1..] == [td];
    }
    assert [tree, es[0]][..1] == [tree];
    assert Walk([tree, td], []) == Some(td);
    assert Walk([tree], [t]) == Some(td);
    assert Walk([tree, es[0]], ["..", t]) == Walk([tree], [t]);
    assert [tree] + [es[0]] == [tree, es[0]];
    assert Walk([tree], segs) == Walk([tree, es[0]], ["..", t]);
  }

  /** `/t/.` splits into `t`, `.` and leads to `/t`. */
  lemma CurrentOfDirectory(a: string, t: string, w: string)
    requires IsEntryName(t) && a != t
    ensures Lookup(SampleTree(a, t, w), EntryPath([Sep] + t, ".")) == Some(Directory(t, [Directory(w, [])]))
  {
    var tree := SampleTree(a, t, w);
    var es := tree.entries;
    var td := Directory(t, [Directory(w, [])]);
    SegmentsOfEntryPath([Sep] + t, ".");
    TopLevelPath(t);
    SegmentsOfName(".");
    var segs := [t, "."];
    assert segs[1..] == ["."] && ["."][1..] == [];
    assert Child(es, t) == Some(td) by {
      assert es[1..] == [td];
    }
    assert Walk([tree, td], []) == Some(td);
    assert Walk([tree, td], ["."]) == Some(td);
    assert [tree] + [td] == [tree, td];
    assert Walk([tree], segs) == Walk([tree, td], ["."]);
  }

  /**
    `.` and `..` inside a path are resolved against the directories found:
    in a tree with `/a` and `/t/w`, the walks from `/a/../t` and from `/t/.`
    each find `w`, spelt under the path as given.
   */
  lemma DotSegmentsResolve(a: string, t: string, w: string)
    requires IsEntryName(a) && IsEntryName(t) && a != t
    ensures var up := EntryPath(EntryPath([Sep] + a, ".."), t);
      DirectoriesUnder(SampleTree(a, t, w), up) == [EntryPath(up, w)]
    ensures var here := EntryPath([Sep] + t, ".");
      DirectoriesUnder(SampleTree(a, t, w), here) == [EntryPath(here, w)]
  {
    ParentOfDirectory(a, t, w);
    SampleDirectories(a, t, w, EntryPath(EntryPath([Sep] + a, ".."), t));
    CurrentOfDirectory(a, t, w);
    SampleDirectories(a, t, w, EntryPath([Sep] + t, "."));
  }

  /**
    `..` only steps back from a directory that exists: after a missing name
    `/z/../t` names nothing and lists nothing, as the system call fails.
   */
  lemma ParentOfMissing(a: string, t: string, w: string, z: string)
    requires IsEntryName(z) && IsEntryName(t) && z != a && z != t
    ensures Lookup(SampleTree(a, t, w), EntryPath(EntryPath([Sep] + z, ".."), t)).None?
    ensures DirectoriesUnder(SampleTree(a, t, w), EntryPath(EntryPath([Sep] + z, ".."), t)) == []
  {
    var es := SampleTree(a, t, w).entries;
    SegmentsOfParent(z, t);
    assert Child(es, z).None? by {
      assert es[1..][1..] == [];
    }
  }

  /** Nor does `..` step back from a file: in a tree with the file `/d/f`, `/d/f/..` names nothing. */
  lemma ParentOfFile(d: string, f: string)
    requires IsEntryName(d) && IsEntryName(f)
    ensures Lookup(Directory("", [Directory(d, [File(f)])]), EntryPath(EntryPath([Sep] + d, f), "..")).None?
  {
    var tree := Directory("", [Directory(d, [File(f)])]);
    SegmentsOfEntryPath(EntryPath([Sep] + d, f), "..");
    SegmentsOfEntryPath([Sep] + d, f);
    TopLevelPath(d);
    SegmentsOfName(f);
    SegmentsOfName("..");
    var segs := [d, f, ".."];
    assert segs[1..] == [f, ".."] && [f, ".."][1..] == [".."];
    assert Child(tree.entries, d) == Some(Directory(d, [File(f)]));
    var dd := Directory(d, [File(f)]);
    assert Child([File(f)], f) == Some(File(f));
    assert Walk([tree, dd, File(f)], [".."]) == None;
    assert [tree, dd] + [File(f)] == [tree, dd, File(f)];
    assert Walk([tree, dd], [f, ".."]) == None;
    assert [tree] + [dd] == [tree, dd];
    assert Walk([tree], segs) == Walk([tree, dd], [f, ".."]);
    assert Segments(EntryPath(EntryPath([Sep] + d, f), "..")) == segs;
  }

  /** Registers a search path unless it is already there. */
  function AddFilePath(paths: seq<string>, p: string): seq<string> {
    if p in paths then paths else paths + [p]
  }

  /** Registers each of `ps` in turn. */
  function AddFilePaths(paths: seq<string>, ps: seq<string>): seq<string>
    decreases |ps|
  {
    if ps == [] then paths else AddFilePaths(AddFilePath(paths, ps[0]), ps[1..])
  }

  /**
    Registration only appends: the old list is a prefix of the new one,
    every registered path is in it, and nothing else is.
   */
  lemma {:induction false} AddFilePathsSpec(paths: seq<string>, ps: seq<string>)
    ensures var r := AddFilePaths(paths, ps);
      && paths <= r
      && (forall p :: p in ps ==> p in r)
      && (forall p :: p in r ==> p in paths || p in ps)
    decreases |ps|
  {
    if ps != [] {
      var next := AddFilePath(paths, ps[0]);
      AddFilePathsSpec(next, ps[1..]);
      assert ps[0] in next && paths <= next;
      assert forall p :: p in ps ==> p == ps[0] || p in ps[1..];
    }
  }

  /**
    Registering the walk from `path` keeps every earlier search path and
    adds every directory reachable below `path`.
   */
  lemma SubdirectoriesRegistered(root: Entry, path: string, paths: seq<string>, d: Entry, names: seq<string>)
    requires Lookup(root, path) == Some(d) && Below(d, names)
    ensures var r := AddFilePaths(paths, DirectoriesUnder(root, path));
      paths <= r && JoinAll(path, names) in r
  {
    SubdirsComplete(path, d, names);
    AddFilePathsSpec(paths, DirectoriesUnder(root, path));
  }

  /** Conversely, every path the walk from `path` adds is a directory reachable below `path`. */
  lemma SubdirectoriesOnlyDirectories(root: Entry, path: string, paths: seq<string>, p: string)
    requires p in AddFilePaths(paths, DirectoriesUnder(root, path)) && p !in paths
    ensures exists d, names :: Lookup(root, path) == Some(d) && Below(d, names) && JoinAll(path, names) == p
  {
    AddFilePathsSpec(paths, DirectoriesUnder(root, path));
    var d := Lookup(root, path).value;
    SubdirsSound(path, d, p);
  }

  predicate Distinct(s: seq<string>) {
    forall i, j :: 0 <= i < j < |s| ==> s[i] != s[j]
  }

  /** Registration never introduces a duplicate search path. */
  lemma {:induction false} AddFilePathsKeepsDistinct(paths: seq<string>, ps: seq<string>)
    requires Distinct(paths)
    ensures Distinct(AddFilePaths(paths, ps))
    decreases |ps|
  {
    if ps != [] {
      AddFilePathsKeepsDistinct(AddFilePath(paths, ps[0]), ps[1..]);
    }
  }

  /** Registering one path, then `a`, then `b`, is registering all of them in that order. */
  lemma AddFilePathThenAll(paths: seq<string>, p: string, a: seq<string>, b: seq<string>)
    ensures AddFilePaths(AddFilePaths(AddFilePath(paths, p), a), b) == AddFilePaths(paths, [p] + a + b)
  {
    AddFilePathsAppend(AddFilePath(paths, p), a, b);
    AddFilePathsAppend(paths, [p], a + b);
    assert [p][1..] == [];
    assert [p] + (a + b) == [p] + a + b;
  }

  /** Registering `a` and then `b` is registering `a + b`. */
  lemma {:induction false} AddFilePathsAppend(paths: seq<string>, a: seq<string>, b: seq<string>)
    ensures AddFilePaths(AddFilePaths(paths, a), b) == AddFilePaths(paths, a + b)
    decreases |a|
  {
    if a == [] {
      assert a + b == b;
    } else {
      assert (a + b)[0] == a[0] && (a + b)[1..] == a[1..] + b;
      AddFilePathsAppend(AddFilePath(paths, a[0]), a[1..], b);
    }
  }
}
