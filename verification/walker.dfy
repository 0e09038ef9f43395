/** Target normalisation and file collection (`normalizeTargets`,
    `collectFiles`, `walkDir`): the flat, deduplicated, sorted list of the
    regular files a selection denotes. */
module Walker {
  import opened Wrappers
  import opened Strings
  import opened Sorting
  import opened FileSystem

  /** Picks the targets of an invocation: the multi-selection when it is
      non-empty, else the single clicked item, else nothing. A target stands
      for a `vscode.Uri` and is known by its `fsPath`. */
  function NormalizeTargets(uri: Option<string>, uris: Option<seq<string>>): (r: seq<string>)
    ensures uris.Some? && |uris.value| > 0 ==> r == uris.value
    ensures (uris.None? || |uris.value| == 0) ==> r == (if uri.Some? then [uri.value] else [])
    ensures |r| == 0 <==> uri.None? && (uris.None? || |uris.value| == 0)
    ensures forall t :: t in r ==> uri == Some(t) || (uris.Some? && t in uris.value)
  {
    if uris.Some? && |uris.value| > 0 then uris.value
    else if uri.Some? then [uri.value]
    else []
  }

  /** The state of one traversal: the files found, in discovery order, and
      the directory paths entered so far (`seen`). */
  datatype Walk = Walk(files: seq<string>, seen: set<string>)

  /** A stat-able, non-excluded entry at `full` has been dealt with: a file
      has been emitted, a directory has been entered. */
  ghost predicate Handled(fs: FS, full: string, w: Walk)
    requires full in fs
  {
    && (fs[full].File? ==> full in w.files)
    && (fs[full].Directory? ==> full in w.seen)
  }

  /** Every entry of directory `d` the walk looks at has been dealt with. */
  ghost predicate Closed(fs: FS, d: string, w: Walk)
  {
    forall name :: IsVisibleChild(fs, d, name) ==> Handled(fs, PathJoin(d, name), w)
  }

  /** `walkDir(dir, seen)`: a directory already in `seen` yields nothing and
      leaves `seen` alone; otherwise `dir` joins `seen` and its listing is
      walked in order. A listing that cannot be read yields nothing. */
  function WalkDir(fs: FS, dir: string, seen: set<string>): (w: Walk)
    decreases Longer(fs, dir), 2
    ensures dir in seen ==> w == Walk([], seen)
    ensures seen <= w.seen && dir in w.seen
    ensures forall p :: p in w.files ==> p in fs && fs[p].File?
    ensures forall p :: p in w.files ==> Reaches(fs, dir, p)
    ensures forall d :: d in w.seen - seen ==> Closed(fs, d, w)
  {
    if dir in seen then Walk([], seen)
    else WalkEntries(fs, dir, Listing(fs, dir), seen + {dir})
  }

  /** The loop of `walkDir` over a directory's entries, threading `seen`
      from one entry to the next. */
  function WalkEntries(fs: FS, dir: string, names: seq<string>, seen: set<string>): (w: Walk)
    decreases Longer(fs, dir), 1, |names|
    ensures seen <= w.seen
    ensures forall p :: p in w.files ==> p in fs && fs[p].File?
    ensures forall p :: p in w.files ==> exists name :: name in names && ReachesVia(fs, dir, name, p)
    ensures forall name :: name in names && !Ignored(name) && PathJoin(dir, name) in fs ==>
              Handled(fs, PathJoin(dir, name), w)
    ensures forall d :: d in w.seen - seen ==> Closed(fs, d, w)
  {
    if |names| == 0 then Walk([], seen)
    else
      var first := WalkEntry(fs, dir, names[0], seen);
      var rest := WalkEntries(fs, dir, names[1..], first.seen);
      var w := Walk(first.files + rest.files, rest.seen);
      assert forall name :: name in names ==> name == names[0] || name in names[1..];
      assert forall p :: p in w.files ==> exists name :: name in names && ReachesVia(fs, dir, name, p) by {
        forall p | p in w.files ensures exists name :: name in names && ReachesVia(fs, dir, name, p) {
          if p in first.files {
            assert names[0] in names && ReachesVia(fs, dir, names[0], p);
          } else {
            var name :| name in names[1..] && ReachesVia(fs, dir, name, p);
            assert name in names;
          }
        }
      }
      assert forall d :: d in w.seen - seen ==> d in first.seen - seen || d in rest.seen - first.seen;
      w
  }

  /** One iteration of that loop: skip an excluded name or one that fails to
      stat, descend into a directory, emit a regular file, ignore the rest. */
  function WalkEntry(fs: FS, dir: string, name: string, seen: set<string>): (w: Walk)
    decreases Longer(fs, dir), 0, 0
    ensures seen <= w.seen
    ensures forall p :: p in w.files ==> p in fs && fs[p].File?
    ensures forall p :: p in w.files ==> ReachesVia(fs, dir, name, p)
    ensures !Ignored(name) && PathJoin(dir, name) in fs ==> Handled(fs, PathJoin(dir, name), w)
    ensures forall d :: d in w.seen - seen ==> Closed(fs, d, w)
  {
    var full := PathJoin(dir, name);
    if Ignored(name) || full !in fs then Walk([], seen)
    else
      match fs[full]
      case Directory(_) =>
        LongerShrinks(fs, dir, name);
        WalkDir(fs, full, seen)
      case File(_) => Walk([full], seen)
      case Other => Walk([], seen)
  }

  /** Once every visited directory is closed, everything reachable from a
      visited directory has been emitted. */
  lemma {:induction false} ClosedWalkFindsAll(fs: FS, dir: string, w: Walk, p: string)
    requires dir in w.seen
    requires forall d :: d in w.seen ==> Closed(fs, d, w)
    requires Reaches(fs, dir, p)
    ensures p in w.files
    decreases Longer(fs, dir)
  {
    var name :| name in Listing(fs, dir) && ReachesVia(fs, dir, name, p);
    var full := PathJoin(dir, name);
    assert IsVisibleChild(fs, dir, name);
    assert Handled(fs, full, w);
    if fs[full].Directory? {
      LongerShrinks(fs, dir, name);
      ClosedWalkFindsAll(fs, full, w, p);
    }
  }

  /** A fresh walk of `root` emits exactly the files `root` reaches. */
  lemma {:induction false} WalkFindsExactlyReachable(fs: FS, root: string, p: string)
    ensures p in WalkDir(fs, root, {}).files <==> Reaches(fs, root, p)
  {
    var w := WalkDir(fs, root, {});
    if Reaches(fs, root, p) {
      ClosedWalkFindsAll(fs, root, w, p);
    }
  }

  /** On a well-formed filesystem, no path component of an emitted file
      below the root, neither its own name nor any directory above it, is
      an excluded name. */
  lemma {:induction false} ReachedPathsAvoidExcluded(fs: FS, dir: string, p: string)
    requires WellFormed(fs)
    requires Reaches(fs, dir, p)
    ensures dir + Sep <= p
    ensures forall c :: c in Components(p[|dir| + 1..]) ==> !Ignored(c)
    decreases Longer(fs, dir)
  {
    var name :| name in Listing(fs, dir) && ReachesVia(fs, dir, name, p);
    var full := PathJoin(dir, name);
    assert dir in fs;
    if fs[full].File? {
      assert p[|dir| + 1..] == name;
      ComponentsOfName(name);
    } else {
      LongerShrinks(fs, dir, name);
      ReachedPathsAvoidExcluded(fs, full, p);
      var rest := p[|full| + 1..];
      assert p[|dir| + 1..] == name + Sep + rest;
      ComponentsOfJoin(name, rest);
    }
  }

  /** What `walkDir` emits on a well-formed filesystem: regular files
      strictly below `dir`, none of whose components below `dir` is an
      excluded name. */
  lemma {:induction false} WalkNeverEmitsExcluded(fs: FS, dir: string, seen: set<string>)
    requires WellFormed(fs)
    ensures forall p :: p in WalkDir(fs, dir, seen).files ==>
      && p in fs && fs[p].File?
      && dir + Sep <= p
      && forall c :: c in Components(p[|dir| + 1..]) ==> !Ignored(c)
  {
    forall p | p in WalkDir(fs, dir, seen).files
      ensures dir + Sep <= p && forall c :: c in Components(p[|dir| + 1..]) ==> !Ignored(c)
    {
      ReachedPathsAvoidExcluded(fs, dir, p);
    }
  }

  /** The message `fsp.stat` rejects with for a missing path. It stands for
      every way a `stat` can fail. */
  function StatError(path: string): string
  {
    "ENOENT: no such file or directory, stat '" + path + "'"
  }

  /** What a single target contributes: itself when it is a file, the files
      it reaches when it is a directory. */
  ghost predicate Finds(fs: FS, target: string, p: string)
  {
    target in fs &&
    match fs[target]
    case File(_) => p == target
    case Directory(_) => Reaches(fs, target, p)
    case Other => false
  }

  /** The loop of `collectFiles` over the targets: every target is
      stat-ed without a guard, so the first one that fails to stat makes the
      whole collection fail. Each directory gets a walk with a fresh `seen`. */
  function Gather(fs: FS, targets: seq<string>): (r: Result<seq<string>>)
    ensures r.Failure? <==> exists i :: 0 <= i < |targets| && targets[i] !in fs
    ensures r.Failure? ==> exists i :: 0 <= i < |targets| && targets[i] !in fs &&
                                       r.error == StatError(targets[i]) &&
                                       forall j :: 0 <= j < i ==> targets[j] in fs
    ensures r.Success? ==> forall p :: p in r.value <==> exists i :: 0 <= i < |targets| && Finds(fs, targets[i], p)
  {
    if |targets| == 0 then Success([])
    else
      var t := targets[0];
      if t !in fs then Failure(StatError(t))
      else
        var here := match fs[t]
          case File(_) => [t]
          case Directory(_) => WalkDir(fs, t, {}).files
          case Other => [];
        assert forall p :: p in here <==> Finds(fs, t, p) by {
          forall p ensures p in here <==> Finds(fs, t, p) {
            if fs[t].Directory? {
              WalkFindsExactlyReachable(fs, t, p);
            }
          }
        }
        match Gather(fs, targets[1..])
        case Failure(e) =>
          assert forall j :: 1 <= j < |targets| ==> targets[j] == targets[1..][j - 1];
          Failure(e)
        case Success(rest) =>
          assert forall i :: 1 <= i < |targets| ==> targets[i] == targets[1..][i - 1];
          Success(here + rest)
  }

  /** The result of `collectFiles`. */
  datatype Collected = Collected(files: seq<string>, roots: seq<string>)

  /** `collectFiles(targets)`: the files the targets denote, deduplicated
      and in ascending order, together with the targets' paths as roots. */
  function CollectFiles(fs: FS, targets: seq<string>): (r: Result<Collected>)
    ensures r.Failure? <==> exists i :: 0 <= i < |targets| && targets[i] !in fs
    ensures r.Success? ==> r.value.roots == targets
    ensures r.Success? ==> StrictlySorted(r.value.files)
    ensures r.Success? ==> forall p :: p in r.value.files <==>
                                       exists i :: 0 <= i < |targets| && Finds(fs, targets[i], p)
  {
    match Gather(fs, targets)
    case Failure(e) => Failure(e)
    case Success(raw) => Success(Collected(SortUnique(raw), targets))
  }

  /** Every collected file is a regular file and appears exactly once, even
      when two targets reach it. */
  lemma {:induction false} CollectedFilesAreDistinctFiles(fs: FS, targets: seq<string>)
    requires CollectFiles(fs, targets).Success?
    ensures Distinct(CollectFiles(fs, targets).value.files)
    ensures forall p :: p in CollectFiles(fs, targets).value.files ==> p in fs && fs[p].File?
  {
    var files := CollectFiles(fs, targets).value.files;
    StrictlySortedIsDistinct(files);
    forall p | p in files ensures p in fs && fs[p].File? {
      var i :| 0 <= i < |targets| && Finds(fs, targets[i], p);
      if fs[targets[i]].Directory? {
        WalkFindsExactlyReachable(fs, targets[i], p);
      }
    }
  }

  /** A selection of files only collects to exactly those files, sorted and
      deduplicated. */
  lemma {:induction false} CollectingFilesOnly(fs: FS, targets: seq<string>)
    requires forall i :: 0 <= i < |targets| ==> targets[i] in fs && fs[targets[i]].File?
    ensures CollectFiles(fs, targets) == Success(Collected(SortUnique(targets), targets))
  {
    var r := CollectFiles(fs, targets);
    assert r.Success?;
    forall p ensures p in r.value.files <==> p in SortUnique(targets) {
      if p in targets {
        var i :| 0 <= i < |targets| && targets[i] == p;
        assert Finds(fs, targets[i], p);
      }
    }
    StrictlySortedUnique(r.value.files, SortUnique(targets));
  }
}
