/** The abstract filesystem the extension reads, and the exclusion policy
    both traversals apply.

    A filesystem maps path strings to what `stat` reports for them. A path
    that is not in the map fails to stat (a dangling link, a permission
    error, a file that vanished). A directory carries the names `readdir`
    returns in the order it returns them, or `None` when `readdir` fails. */
module FileSystem {
  import opened Wrappers

  /** What reading a regular file as UTF-8 text yields: its text, or an
      error whose `message` may be missing. */
  datatype ReadResult = Contents(text: string) | ReadError(message: Option<string>)

  datatype Entry =
    | File(read: ReadResult)
    | Directory(listing: Option<seq<string>>)
      /** Stats successfully but is neither a regular file nor a directory
          (a socket, a FIFO, a device). */
    | Other

  type FS = map<string, Entry>

  /** The basenames skipped at every level of every traversal
      (`DEFAULT_IGNORE`). */
  const DefaultIgnore: set<string> :=
    {"node_modules", ".git", ".DS_Store", ".vscode", "dist", "build", "out"}

  predicate Ignored(name: string)
  {
    name in DefaultIgnore
  }

  /** POSIX `path.sep`. */
  const Sep: string := "/"

  /** `path.join(dir, name)` for a directory path and an entry name. */
  function PathJoin(dir: string, name: string): (full: string)
    ensures |full| > |dir|
    ensures dir + Sep <= full
  {
    dir + Sep + name
  }

  /** `readdir(dir)`: the listing of a readable directory, `None` otherwise. */
  function ReadDir(fs: FS, dir: string): Option<seq<string>>
  {
    if dir in fs && fs[dir].Directory? then fs[dir].listing else None
  }

  /** The names `readdir(dir)` returns, empty when it fails. */
  function Listing(fs: FS, dir: string): seq<string>
  {
    match ReadDir(fs, dir)
    case Some(names) => names
    case None => []
  }

  /** The paths of `fs` longer than `dir`. A child path `dir/name` is longer
      than `dir`, so this set shrinks strictly on every step down: it is the
      termination measure of every traversal, and no acyclicity of the
      directory graph is assumed. */
  function Longer(fs: FS, dir: string): set<string>
  {
    set p | p in fs.Keys && |p| > |dir|
  }

  lemma {:induction false} LongerShrinks(fs: FS, dir: string, name: string)
    requires PathJoin(dir, name) in fs
    ensures Longer(fs, PathJoin(dir, name)) < Longer(fs, dir)
  {
    var full := PathJoin(dir, name);
    assert full in Longer(fs, dir) && full !in Longer(fs, full);
  }

  /** `name` is an entry of `dir` that a traversal looks at: it is not
      excluded and it stats. */
  predicate IsVisibleChild(fs: FS, dir: string, name: string)
  {
    name in Listing(fs, dir) && !Ignored(name) && PathJoin(dir, name) in fs
  }

  /** `p` is a regular file found below `dir` by descending only through
      readable directories and only through entries whose name is not
      excluded. This is the reference definition of what a walk must find. */
  ghost predicate Reaches(fs: FS, dir: string, p: string)
    decreases Longer(fs, dir), 1
  {
    exists name :: name in Listing(fs, dir) && ReachesVia(fs, dir, name, p)
  }

  /** `p` is found below `dir` through its entry `name`. */
  ghost predicate ReachesVia(fs: FS, dir: string, name: string, p: string)
    decreases Longer(fs, dir), 0
  {
    !Ignored(name) && PathJoin(dir, name) in fs &&
    var full := PathJoin(dir, name);
    match fs[full]
    case File(_) => p == full
    case Directory(_) =>
      LongerShrinks(fs, dir, name);
      Reaches(fs, full, p)
    case Other => false
  }

  /** The names a directory lists are single path components: non-empty and
      free of the separator. Every real filesystem guarantees this. */
  predicate WellFormed(fs: FS)
  {
    forall dir, name :: dir in fs && name in Listing(fs, dir) ==> name != "" && '/' !in name
  }

  /** `s` split at every `/`, as `s.split('/')`. */
  function Components(s: string): (cs: seq<string>)
    ensures |cs| > 0
  {
    if |s| == 0 then [""]
    else if s[0] == '/' then [""] + Components(s[1..])
    else
      var rest := Components(s[1..]);
      [[s[0]] + rest[0]] + rest[1..]
  }

  lemma {:induction false} ComponentsOfName(name: string)
    requires '/' !in name
    ensures Components(name) == [name]
  {
    if |name| > 0 {
      ComponentsOfName(name[1..]);
      assert [name[0]] + name[1..] == name;
    }
  }

  /** Splitting `name/rest` yields `name` followed by the pieces of `rest`. */
  lemma {:induction false} ComponentsOfJoin(name: string, rest: string)
    requires '/' !in name
    ensures Components(name + Sep + rest) == [name] + Components(rest)
  {
    if |name| == 0 {
      assert name + Sep + rest == "/" + rest;
      assert ("/" + rest)[1..] == rest;
    } else {
      var s := name + Sep + rest;
      assert s[0] == name[0];
      assert s[1..] == name[1..] + Sep + rest;
      ComponentsOfJoin(name[1..], rest);
      assert [name[0]] + name[1..] == name;
    }
  }
}
