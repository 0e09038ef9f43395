/** The ASCII tree of the selection (`renderTreeSection`,
    `renderAsciiTree`). The renderer walks the filesystem on its own: it
    drops excluded names, sorts each directory's entries, marks the last
    entry with a corner and carries a continuation prefix into the children.
    A rendered line is kept as a `Row` (prefix, branch glyph, name) so that
    its parts can be talked about; `Line` glues them together. */
module AsciiTree {
  import opened Wrappers
  import opened Strings
  import opened Sorting
  import opened FileSystem

  const MidBranch: string := "├─ "
  const LastBranch: string := "└─ "
  const MidContinuation: string := "│  "
  const LastContinuation: string := "   "

  datatype Row = Row(prefix: string, branch: string, name: string)

  function Line(row: Row): string
  {
    row.prefix + row.branch + row.name
  }

  /** The prefix an entry hands down to its children. */
  function Continuation(branch: string): string
  {
    if branch == LastBranch then LastContinuation else MidContinuation
  }

  /** The first character of a non-empty continuation. */
  predicate IsContinuationChar(c: char)
  {
    c == ' ' || c == '│'
  }

  /** The listed names that are not in the exclusion set, in listing order. */
  function VisibleNames(names: seq<string>): (r: seq<string>)
    ensures forall n :: n in r <==> n in names && !Ignored(n)
  {
    if |names| == 0 then []
    else
      var rest := VisibleNames(names[1..]);
      assert forall n :: n in names <==> n == names[0] || n in names[1..];
      if Ignored(names[0]) then rest else [names[0]] + rest
  }

  /** The entries of `dir` in the order they are drawn. */
  function Entries(fs: FS, dir: string): (r: seq<string>)
    ensures Sorted(r)
    ensures forall n :: n in r <==> n in Listing(fs, dir) && !Ignored(n)
  {
    var names := VisibleNames(Listing(fs, dir));
    var r := Sort(names);
    assert forall n :: n in r <==> n in multiset(r);
    assert forall n :: n in names <==> n in multiset(names);
    r
  }

  /** `recur(dir, prefix)`: the rows drawn for the contents of `dir`. */
  function RenderDir(fs: FS, dir: string, prefix: string): (r: seq<Row>)
    ensures |r| > 0 ==> r[0].prefix == prefix
    decreases Longer(fs, dir), 1
  {
    RenderEntries(fs, dir, prefix, Entries(fs, dir), 0)
  }

  /** The entry loop of `recur`, from index `idx` on.
      The entry at the last index takes the corner and a blank continuation,
      every other one the tee and a bar; an entry that fails to stat draws
      nothing, and its index still counts. */
  function RenderEntries(fs: FS, dir: string, prefix: string, entries: seq<string>, idx: nat): (r: seq<Row>)
    requires idx <= |entries|
    ensures |r| > 0 ==> r[0].prefix == prefix
    decreases Longer(fs, dir), 0, |entries| - idx
  {
    if idx == |entries| then []
    else
      var name := entries[idx];
      var branch := if idx == |entries| - 1 then LastBranch else MidBranch;
      var full := PathJoin(dir, name);
      var rest := RenderEntries(fs, dir, prefix, entries, idx + 1);
      if full !in fs then rest
      else
        var sub := if fs[full].Directory? then (LongerShrinks(fs, dir, name);
                                                RenderDir(fs, full, prefix + Continuation(branch)))
                   else [];
        [Row(prefix, branch, name)] + sub + rest
  }

  /** Every row sits below `prefix`: its prefix extends `prefix`, and any
      further indentation starts with a continuation character. */
  ghost predicate BelowPrefix(rows: seq<Row>, prefix: string)
  {
    forall i :: 0 <= i < |rows| ==>
      && prefix <= rows[i].prefix
      && (|rows[i].prefix| > |prefix| ==> IsContinuationChar(rows[i].prefix[|prefix|]))
  }

  /** Every row uses one of the two branch glyphs. */
  ghost predicate Glyphs(rows: seq<Row>)
  {
    forall i :: 0 <= i < |rows| ==> rows[i].branch == MidBranch || rows[i].branch == LastBranch
  }

  /** The rows start at `prefix`, and each row's prefix extends no further
      than the previous row's prefix plus that row's continuation: a row is
      either the first child of the row above it, or a later sibling of it or
      of one of its ancestors. */
  ghost predicate Continuous(rows: seq<Row>, prefix: string)
  {
    && (|rows| > 0 ==> rows[0].prefix == prefix)
    && forall j :: 0 < j < |rows| ==> rows[j].prefix <= rows[j - 1].prefix + Continuation(rows[j - 1].branch)
  }

  ghost predicate Shape(rows: seq<Row>, prefix: string)
  {
    BelowPrefix(rows, prefix) && Glyphs(rows) && Continuous(rows, prefix)
  }

  lemma {:induction false} ShapeOfConcat(prefix: string, head: Row, sub: seq<Row>, rest: seq<Row>)
    requires head.prefix == prefix
    requires head.branch == MidBranch || head.branch == LastBranch
    requires Shape(sub, prefix + Continuation(head.branch))
    requires Shape(rest, prefix)
    ensures Shape([head] + sub + rest, prefix)
  {
    var r := [head] + sub + rest;
    assert forall i :: 1 <= i <= |sub| ==> r[i] == sub[i - 1];
    assert forall i :: 1 + |sub| <= i < |r| ==> r[i] == rest[i - 1 - |sub|];
    ConcatBelowPrefix(prefix, head, sub, rest);
    ConcatContinuous(prefix, head, sub, rest);
  }

  lemma {:induction false} ConcatBelowPrefix(prefix: string, head: Row, sub: seq<Row>, rest: seq<Row>)
    requires head.prefix == prefix
    requires BelowPrefix(sub, prefix + Continuation(head.branch))
    requires BelowPrefix(rest, prefix)
    ensures BelowPrefix([head] + sub + rest, prefix)
  {
    var next := prefix + Continuation(head.branch);
    var r := [head] + sub + rest;
    assert |Continuation(head.branch)| == 3;
    forall i | 0 <= i < |r|
      ensures prefix <= r[i].prefix
      ensures |r[i].prefix| > |prefix| ==> IsContinuationChar(r[i].prefix[|prefix|])
    {
      if 1 <= i <= |sub| {
        assert r[i] == sub[i - 1];
        assert next <= r[i].prefix;
      } else if i > |sub| {
        assert r[i] == rest[i - 1 - |sub|];
      }
    }
  }

  lemma {:induction false} ConcatContinuous(prefix: string, head: Row, sub: seq<Row>, rest: seq<Row>)
    requires head.prefix == prefix
    requires Continuous(sub, prefix + Continuation(head.branch))
    requires BelowPrefix(sub, prefix + Continuation(head.branch))
    requires Continuous(rest, prefix)
    ensures Continuous([head] + sub + rest, prefix)
  {
    var next := prefix + Continuation(head.branch);
    var r := [head] + sub + rest;
    forall j | 0 < j < |r|
      ensures r[j].prefix <= r[j - 1].prefix + Continuation(r[j - 1].branch)
    {
      if j <= |sub| {
        assert r[j] == sub[j - 1];
        if j > 1 {
          assert r[j - 1] == sub[j - 2];
        }
      } else if j == 1 + |sub| {
        assert r[j] == rest[0];
        if |sub| > 0 {
          // The first row after a subtree steps back out to `prefix`.
          assert r[j - 1] == sub[|sub| - 1];
          assert next <= sub[|sub| - 1].prefix;
        }
      } else {
        assert r[j] == rest[j - 1 - |sub|] && r[j - 1] == rest[j - 2 - |sub|];
      }
    }
  }

  /** The rows of a directory are shaped like a tree below their prefix. */
  lemma {:induction false} RenderDirShape(fs: FS, dir: string, prefix: string)
    ensures Shape(RenderDir(fs, dir, prefix), prefix)
    decreases Longer(fs, dir), 1
  {
    RenderEntriesShape(fs, dir, prefix, Entries(fs, dir), 0);
  }

  lemma {:induction false} RenderEntriesShape(fs: FS, dir: string, prefix: string, entries: seq<string>, idx: nat)
    requires idx <= |entries|
    ensures Shape(RenderEntries(fs, dir, prefix, entries, idx), prefix)
    decreases Longer(fs, dir), 0, |entries| - idx
  {
    if idx < |entries| {
      var name := entries[idx];
      var branch := if idx == |entries| - 1 then LastBranch else MidBranch;
      var full := PathJoin(dir, name);
      var rest := RenderEntries(fs, dir, prefix, entries, idx + 1);
      RenderEntriesShape(fs, dir, prefix, entries, idx + 1);
      if full in fs {
        var sub: seq<Row> := [];
        if fs[full].Directory? {
          LongerShrinks(fs, dir, name);
          sub := RenderDir(fs, full, prefix + Continuation(branch));
          RenderDirShape(fs, full, prefix + Continuation(branch));
        }
        assert RenderEntries(fs, dir, prefix, entries, idx) == [Row(prefix, branch, name)] + sub + rest;
        ShapeOfConcat(prefix, Row(prefix, branch, name), sub, rest);
      }
    }
  }

  ghost predicate NoExcluded(rows: seq<Row>)
  {
    forall i :: 0 <= i < |rows| ==> !Ignored(rows[i].name)
  }

  /** No row, at any depth, names an excluded entry. */
  lemma {:induction false} RenderDirNoExcluded(fs: FS, dir: string, prefix: string)
    ensures NoExcluded(RenderDir(fs, dir, prefix))
    decreases Longer(fs, dir), 1
  {
    var entries := Entries(fs, dir);
    assert forall k :: 0 <= k < |entries| ==> entries[k] in entries;
    RenderEntriesNoExcluded(fs, dir, prefix, entries, 0);
  }

  lemma {:induction false} RenderEntriesNoExcluded(fs: FS, dir: string, prefix: string, entries: seq<string>, idx: nat)
    requires idx <= |entries|
    requires forall k :: 0 <= k < |entries| ==> !Ignored(entries[k])
    ensures NoExcluded(RenderEntries(fs, dir, prefix, entries, idx))
    decreases Longer(fs, dir), 0, |entries| - idx
  {
    if idx < |entries| {
      var name := entries[idx];
      var branch := if idx == |entries| - 1 then LastBranch else MidBranch;
      var full := PathJoin(dir, name);
      var rest := RenderEntries(fs, dir, prefix, entries, idx + 1);
      RenderEntriesNoExcluded(fs, dir, prefix, entries, idx + 1);
      if full in fs {
        var sub: seq<Row> := [];
        if fs[full].Directory? {
          LongerShrinks(fs, dir, name);
          sub := RenderDir(fs, full, prefix + Continuation(branch));
          RenderDirNoExcluded(fs, full, prefix + Continuation(branch));
        }
        assert RenderEntries(fs, dir, prefix, entries, idx) == [Row(prefix, branch, name)] + sub + rest;
      } else {
        assert RenderEntries(fs, dir, prefix, entries, idx) == rest;
      }
    }
  }

  /** The rows drawn at exactly `prefix` (one directory's own entries) come
      in ascending name order. */
  ghost predicate LevelSorted(rows: seq<Row>, prefix: string)
  {
    forall i, j :: 0 <= i < j < |rows| && rows[i].prefix == prefix && rows[j].prefix == prefix ==>
      LessEq(rows[i].name, rows[j].name)
  }

  /** A corner at `prefix` is never followed by another entry of the same
      directory. */
  ghost predicate CornerIsLast(rows: seq<Row>, prefix: string)
  {
    forall i, j :: 0 <= i < j < |rows| && rows[i].prefix == prefix && rows[i].branch == LastBranch ==>
      rows[j].prefix != prefix
  }

  /** The rows at `prefix` name entries from `idx` on that stat. */
  ghost predicate LevelNamesFrom(rows: seq<Row>, prefix: string, fs: FS, dir: string, entries: seq<string>, idx: nat)
    requires idx <= |entries|
  {
    forall i :: 0 <= i < |rows| && rows[i].prefix == prefix ==>
      rows[i].name in entries[idx..] && PathJoin(dir, rows[i].name) in fs
  }

  /** Every entry from `idx` on that stats has a row at `prefix`. */
  ghost predicate LevelComplete(rows: seq<Row>, prefix: string, fs: FS, dir: string, entries: seq<string>, idx: nat)
  {
    forall k :: idx <= k < |entries| && PathJoin(dir, entries[k]) in fs ==>
      exists i :: 0 <= i < |rows| && rows[i].prefix == prefix && rows[i].name == entries[k]
  }

  /** The entry at the last index, when it stats, is drawn with the corner. */
  ghost predicate LastHasCorner(rows: seq<Row>, prefix: string, fs: FS, dir: string, entries: seq<string>, idx: nat)
  {
    idx < |entries| && PathJoin(dir, entries[|entries| - 1]) in fs ==>
      exists i :: 0 <= i < |rows| && rows[i].prefix == prefix && rows[i].branch == LastBranch &&
                  rows[i].name == entries[|entries| - 1]
  }

  /** Only the entry at the last index is drawn with the corner: when that
      entry fails to stat, the last row drawn at `prefix` keeps the tee. */
  ghost predicate CornerOnlyOnLast(rows: seq<Row>, prefix: string, entries: seq<string>)
  {
    forall i :: 0 <= i < |rows| && rows[i].prefix == prefix && rows[i].branch == LastBranch ==>
      |entries| > 0 && rows[i].name == entries[|entries| - 1]
  }

  ghost predicate Level(rows: seq<Row>, prefix: string, fs: FS, dir: string, entries: seq<string>, idx: nat)
    requires idx <= |entries|
  {
    && LevelNamesFrom(rows, prefix, fs, dir, entries, idx)
    && LevelComplete(rows, prefix, fs, dir, entries, idx)
    && LevelSorted(rows, prefix)
    && CornerIsLast(rows, prefix)
    && LastHasCorner(rows, prefix, fs, dir, entries, idx)
    && CornerOnlyOnLast(rows, prefix, entries)
  }

  /** One step of the `forEach` loop keeps `Level`: the row of entry `idx`,
      drawn ahead of its subtree (which lies strictly deeper) and of the rows
      of the later entries. */
  lemma {:induction false} LevelStep(prefix: string, fs: FS, dir: string, entries: seq<string>, idx: nat,
                  branch: string, sub: seq<Row>, rest: seq<Row>)
    requires idx < |entries| && Sorted(entries)
    requires PathJoin(dir, entries[idx]) in fs
    requires branch == (if idx == |entries| - 1 then LastBranch else MidBranch)
    requires forall i :: 0 <= i < |sub| ==> |sub[i].prefix| > |prefix|
    requires Level(rest, prefix, fs, dir, entries, idx + 1)
    requires idx == |entries| - 1 ==> rest == []
    ensures Level([Row(prefix, branch, entries[idx])] + sub + rest, prefix, fs, dir, entries, idx)
  {
    var head := Row(prefix, branch, entries[idx]);
    var r := [head] + sub + rest;
    var off := 1 + |sub|;
    StepRowsOfConcat(prefix, head, sub, rest);
    LevelStepComplete(prefix, fs, dir, entries, idx, head, r, off, rest);
    LevelStepSorted(prefix, fs, dir, entries, idx, head, r, off, rest);
    LevelStepNames(prefix, fs, dir, entries, idx, head, r, off, rest);
    LevelStepCorner(prefix, entries, idx, head, r, off, rest);
  }

  lemma {:induction false} LevelStepCorner(prefix: string, entries: seq<string>, idx: nat,
                                           head: Row, r: seq<Row>, off: nat, rest: seq<Row>)
    requires idx < |entries| && head == Row(prefix, head.branch, entries[idx])
    requires head.branch == (if idx == |entries| - 1 then LastBranch else MidBranch)
    requires StepRows(prefix, head, r, off, rest)
    requires CornerOnlyOnLast(rest, prefix, entries)
    ensures CornerOnlyOnLast(r, prefix, entries)
  {
    forall i | 0 <= i < |r| && r[i].prefix == prefix && r[i].branch == LastBranch
      ensures |entries| > 0 && r[i].name == entries[|entries| - 1]
    {
      if i >= off {
        assert r[i] == rest[i - off];
      }
    }
  }

  lemma {:induction false} StepRowsOfConcat(prefix: string, head: Row, sub: seq<Row>, rest: seq<Row>)
    requires forall i :: 0 <= i < |sub| ==> |sub[i].prefix| > |prefix|
    ensures StepRows(prefix, head, [head] + sub + rest, 1 + |sub|, rest)
  {
    var r := [head] + sub + rest;
    assert forall i :: 1 <= i < 1 + |sub| ==> r[i] == sub[i - 1];
  }

  lemma {:induction false} LevelStepNames(prefix: string, fs: FS, dir: string, entries: seq<string>, idx: nat,
                                          head: Row, r: seq<Row>, off: nat, rest: seq<Row>)
    requires idx < |entries| && head == Row(prefix, head.branch, entries[idx])
    requires PathJoin(dir, entries[idx]) in fs
    requires head.branch == (if idx == |entries| - 1 then LastBranch else MidBranch)
    requires StepRows(prefix, head, r, off, rest)
    requires idx == |entries| - 1 ==> rest == []
    requires LevelNamesFrom(rest, prefix, fs, dir, entries, idx + 1)
    requires CornerIsLast(rest, prefix)
    requires LastHasCorner(rest, prefix, fs, dir, entries, idx + 1)
    ensures LevelNamesFrom(r, prefix, fs, dir, entries, idx)
    ensures CornerIsLast(r, prefix)
    ensures LastHasCorner(r, prefix, fs, dir, entries, idx)
  {
    assert entries[idx + 1..] == entries[idx..][1..];
    forall i | 0 <= i < |r| && r[i].prefix == prefix
      ensures r[i].name in entries[idx..] && PathJoin(dir, r[i].name) in fs
    {
      if i > 0 {
        assert r[i] == rest[i - off];
      }
    }
    forall i, j | 0 <= i < j < |r| && r[i].prefix == prefix && r[i].branch == LastBranch
      ensures r[j].prefix != prefix
    {
      if j >= off {
        assert r[j] == rest[j - off];
        if i >= off {
          assert r[i] == rest[i - off];
        }
      }
    }
    if PathJoin(dir, entries[|entries| - 1]) in fs && idx < |entries| - 1 {
      var i :| 0 <= i < |rest| && rest[i].prefix == prefix && rest[i].branch == LastBranch &&
               rest[i].name == entries[|entries| - 1];
      assert r[off + i] == rest[i];
    }
  }

  /** The rows after the subtree of entry `idx` are the rows of the later
      entries. */
  ghost predicate StepRows(prefix: string, head: Row, r: seq<Row>, off: nat, rest: seq<Row>)
  {
    && 1 <= off && |r| == off + |rest| && r[0] == head
    && (forall i :: off <= i < |r| ==> r[i] == rest[i - off])
    && (forall i :: 1 <= i < off ==> r[i].prefix != prefix)
  }

  lemma {:induction false} LevelStepComplete(prefix: string, fs: FS, dir: string, entries: seq<string>, idx: nat,
                                             head: Row, r: seq<Row>, off: nat, rest: seq<Row>)
    requires idx < |entries| && head == Row(prefix, head.branch, entries[idx])
    requires StepRows(prefix, head, r, off, rest)
    requires LevelComplete(rest, prefix, fs, dir, entries, idx + 1)
    ensures LevelComplete(r, prefix, fs, dir, entries, idx)
  {
    forall k | idx <= k < |entries| && PathJoin(dir, entries[k]) in fs
      ensures exists i :: 0 <= i < |r| && r[i].prefix == prefix && r[i].name == entries[k]
    {
      if k > idx {
        var i :| 0 <= i < |rest| && rest[i].prefix == prefix && rest[i].name == entries[k];
        assert r[off + i] == rest[i];
      } else {
        assert r[0] == head;
      }
    }
  }

  lemma {:induction false} LevelStepSorted(prefix: string, fs: FS, dir: string, entries: seq<string>, idx: nat,
                                           head: Row, r: seq<Row>, off: nat, rest: seq<Row>)
    requires idx < |entries| && Sorted(entries) && head == Row(prefix, head.branch, entries[idx])
    requires StepRows(prefix, head, r, off, rest)
    requires LevelNamesFrom(rest, prefix, fs, dir, entries, idx + 1)
    requires LevelSorted(rest, prefix)
    ensures LevelSorted(r, prefix)
  {
    forall i, j | 0 <= i < j < |r| && r[i].prefix == prefix && r[j].prefix == prefix
      ensures LessEq(r[i].name, r[j].name)
    {
      assert r[j] == rest[j - off];
      if i == 0 {
        assert r[j].name in entries[idx + 1..];
        var k :| idx + 1 <= k < |entries| && entries[k] == r[j].name;
      } else {
        assert r[i] == rest[i - off];
      }
    }
  }

  /** What the `forEach` loop draws at its own level: one row for every
      remaining entry that stats, in the sorted order, with the corner on
      the entry at the last index and on nothing before it. */
  lemma {:induction false} RenderEntriesLevel(fs: FS, dir: string, prefix: string, entries: seq<string>, idx: nat)
    requires idx <= |entries| && Sorted(entries)
    ensures Level(RenderEntries(fs, dir, prefix, entries, idx), prefix, fs, dir, entries, idx)
    decreases |entries| - idx
  {
    if idx < |entries| {
      var name := entries[idx];
      var branch := if idx == |entries| - 1 then LastBranch else MidBranch;
      var full := PathJoin(dir, name);
      var rest := RenderEntries(fs, dir, prefix, entries, idx + 1);
      RenderEntriesLevel(fs, dir, prefix, entries, idx + 1);
      if full in fs {
        var sub: seq<Row> := [];
        if fs[full].Directory? {
          LongerShrinks(fs, dir, name);
          sub := RenderDir(fs, full, prefix + Continuation(branch));
          RenderDirShape(fs, full, prefix + Continuation(branch));
        }
        assert RenderEntries(fs, dir, prefix, entries, idx) == [Row(prefix, branch, name)] + sub + rest;
        LevelStep(prefix, fs, dir, entries, idx, branch, sub, rest);
      } else {
        assert RenderEntries(fs, dir, prefix, entries, idx) == rest;
        assert entries[idx + 1..] == entries[idx..][1..];
      }
    }
  }

  /** `name` is the greatest of the listed, non-excluded names of `dir`,
      and it stats: the entry the loop reaches last. */
  predicate IsLastVisible(fs: FS, dir: string, name: string)
  {
    && IsVisibleChild(fs, dir, name)
    && forall n :: n in Listing(fs, dir) && !Ignored(n) ==> LessEq(n, name)
  }

  /** The rows a directory contributes at its own level are exactly its
      visible entries, in ascending order. The corner is drawn exactly on
      the greatest listed name, when that name stats, and nothing at that
      level follows it. */
  lemma {:induction false} RenderDirLevel(fs: FS, dir: string, prefix: string)
    ensures var r := RenderDir(fs, dir, prefix);
      && DrawsVisibleChildren(r, prefix, fs, dir)
      && LevelSorted(r, prefix)
      && CornerIsLast(r, prefix)
      && GreatestHasCorner(r, prefix, fs, dir)
      && CornerIsGreatest(r, prefix, fs, dir)
  {
    var entries := Entries(fs, dir);
    RenderEntriesLevel(fs, dir, prefix, entries, 0);
    assert entries[0..] == entries;
    RenderDirNames(fs, dir, prefix);
    RenderDirGreatestHasCorner(fs, dir, prefix);
    RenderDirCornerIsGreatest(fs, dir, prefix);
  }

  /** The rows at `prefix` name exactly the visible children of `dir`. */
  ghost predicate DrawsVisibleChildren(r: seq<Row>, prefix: string, fs: FS, dir: string)
  {
    forall name :: IsVisibleChild(fs, dir, name) <==>
      exists i :: 0 <= i < |r| && r[i].prefix == prefix && r[i].name == name
  }

  /** The entry the loop reaches last, when it stats, has the corner. */
  ghost predicate GreatestHasCorner(r: seq<Row>, prefix: string, fs: FS, dir: string)
  {
    forall name :: IsLastVisible(fs, dir, name) ==>
      exists i :: 0 <= i < |r| && r[i].prefix == prefix && r[i].branch == LastBranch && r[i].name == name
  }

  /** A corner at `prefix` is only ever drawn on the entry the loop reaches
      last. */
  ghost predicate CornerIsGreatest(r: seq<Row>, prefix: string, fs: FS, dir: string)
  {
    forall i :: 0 <= i < |r| && r[i].prefix == prefix && r[i].branch == LastBranch ==>
      IsLastVisible(fs, dir, r[i].name)
  }

  lemma {:induction false} RenderDirNames(fs: FS, dir: string, prefix: string)
    ensures DrawsVisibleChildren(RenderDir(fs, dir, prefix), prefix, fs, dir)
  {
    var entries := Entries(fs, dir);
    RenderEntriesLevel(fs, dir, prefix, entries, 0);
    LevelNames(RenderDir(fs, dir, prefix), prefix, fs, dir, entries);
  }

  lemma {:induction false} RenderDirGreatestHasCorner(fs: FS, dir: string, prefix: string)
    ensures GreatestHasCorner(RenderDir(fs, dir, prefix), prefix, fs, dir)
  {
    var entries := Entries(fs, dir);
    RenderEntriesLevel(fs, dir, prefix, entries, 0);
    LevelGreatestHasCorner(RenderDir(fs, dir, prefix), prefix, fs, dir, entries);
  }

  lemma {:induction false} RenderDirCornerIsGreatest(fs: FS, dir: string, prefix: string)
    ensures CornerIsGreatest(RenderDir(fs, dir, prefix), prefix, fs, dir)
  {
    var entries := Entries(fs, dir);
    RenderEntriesLevel(fs, dir, prefix, entries, 0);
    LevelCornerIsGreatest(RenderDir(fs, dir, prefix), prefix, fs, dir, entries);
  }

  /** The names a level draws, for the sorted entries of `dir`. */
  lemma {:induction false} LevelNames(r: seq<Row>, prefix: string, fs: FS, dir: string, entries: seq<string>)
    requires forall n :: n in entries <==> n in Listing(fs, dir) && !Ignored(n)
    requires LevelNamesFrom(r, prefix, fs, dir, entries, 0)
    requires LevelComplete(r, prefix, fs, dir, entries, 0)
    ensures DrawsVisibleChildren(r, prefix, fs, dir)
  {
    assert entries[0..] == entries;
    forall name | IsVisibleChild(fs, dir, name)
      ensures exists i :: 0 <= i < |r| && r[i].prefix == prefix && r[i].name == name
    {
      var k :| 0 <= k < |entries| && entries[k] == name;
    }
    forall name | exists i :: 0 <= i < |r| && r[i].prefix == prefix && r[i].name == name
      ensures IsVisibleChild(fs, dir, name)
    {
      var i :| 0 <= i < |r| && r[i].prefix == prefix && r[i].name == name;
      assert name in entries[0..];
    }
  }

  lemma {:induction false} LevelGreatestHasCorner(r: seq<Row>, prefix: string, fs: FS, dir: string, entries: seq<string>)
    requires forall n :: n in entries <==> n in Listing(fs, dir) && !Ignored(n)
    requires Sorted(entries)
    requires LastHasCorner(r, prefix, fs, dir, entries, 0)
    ensures GreatestHasCorner(r, prefix, fs, dir)
  {
    forall name | IsLastVisible(fs, dir, name)
      ensures exists i :: 0 <= i < |r| && r[i].prefix == prefix && r[i].branch == LastBranch && r[i].name == name
    {
      var k :| 0 <= k < |entries| && entries[k] == name;
      var last := entries[|entries| - 1];
      assert LessEq(last, name);
      if k < |entries| - 1 {
        assert LessEq(name, last);
        if name != last {
          LessAsymmetric(name, last);
        }
      }
      assert last == name;
    }
  }

  lemma {:induction false} LevelCornerIsGreatest(r: seq<Row>, prefix: string, fs: FS, dir: string, entries: seq<string>)
    requires forall n :: n in entries <==> n in Listing(fs, dir) && !Ignored(n)
    requires Sorted(entries)
    requires LevelNamesFrom(r, prefix, fs, dir, entries, 0)
    requires CornerOnlyOnLast(r, prefix, entries)
    ensures CornerIsGreatest(r, prefix, fs, dir)
  {
    assert entries[0..] == entries;
    forall i | 0 <= i < |r| && r[i].prefix == prefix && r[i].branch == LastBranch
      ensures IsLastVisible(fs, dir, r[i].name)
    {
      var last := entries[|entries| - 1];
      assert r[i].name == last;
      assert last in entries[0..];
      forall n | n in Listing(fs, dir) && !Ignored(n) ensures LessEq(n, last) {
        var k :| 0 <= k < |entries| && entries[k] == n;
        if k < |entries| - 1 {
          assert LessEq(entries[k], entries[|entries| - 1]);
        }
      }
    }
  }

  /** `rows[i + 1..]` starts with `sub`. */
  predicate SubtreeAt(rows: seq<Row>, i: nat, sub: seq<Row>)
  {
    i + 1 + |sub| <= |rows| && rows[i + 1..i + 1 + |sub|] == sub
  }

  predicate IsDirectory(fs: FS, p: string)
  {
    p in fs && fs[p].Directory?
  }

  /** A row of `dir` names a subdirectory. */
  function DirRow(fs: FS, dir: string): Row -> bool
  {
    (row: Row) => IsDirectory(fs, PathJoin(dir, row.name))
  }

  /** The drawing of the child a row of `dir` names, one level below
      `prefix`, with the row's continuation appended. */
  function ChildOf(fs: FS, dir: string, prefix: string): Row -> seq<Row>
  {
    (row: Row) => RenderDir(fs, PathJoin(dir, row.name), prefix + Continuation(row.branch))
  }

  /** Every row at `prefix` that `isDir` picks is followed directly by the
      rows `child` gives for it. */
  ghost predicate Nests(rows: seq<Row>, prefix: string, isDir: Row -> bool, child: Row -> seq<Row>)
  {
    forall i :: 0 <= i < |rows| && rows[i].prefix == prefix && isDir(rows[i]) ==> SubtreeAt(rows, i, child(rows[i]))
  }

  lemma {:induction false} NestsOfConcat(prefix: string, isDir: Row -> bool, child: Row -> seq<Row>,
                                         head: Row, sub: seq<Row>, rest: seq<Row>)
    requires head.prefix == prefix
    requires isDir(head) ==> sub == child(head)
    requires BelowPrefix(sub, prefix + Continuation(head.branch))
    requires Nests(rest, prefix, isDir, child)
    ensures Nests([head] + sub + rest, prefix, isDir, child)
  {
    var r := [head] + sub + rest;
    var off := 1 + |sub|;
    assert |Continuation(head.branch)| == 3;
    assert forall j :: 1 <= j < off ==> r[j] == sub[j - 1];
    assert forall j :: 1 <= j < off ==> |r[j].prefix| > |prefix|;
    forall i | 0 <= i < |r| && r[i].prefix == prefix && isDir(r[i])
      ensures SubtreeAt(r, i, child(r[i]))
    {
      if i == 0 {
        assert r[0] == head;
        assert r[1..off] == sub;
      } else {
        var j := i - off;
        assert r[i] == rest[j];
        var s := child(rest[j]);
        assert rest[j + 1..j + 1 + |s|] == s;
        assert r[i + 1..i + 1 + |s|] == rest[j + 1..j + 1 + |s|];
      }
    }
  }

  /** Below each subdirectory's row of the entry loop come exactly the rows
      `recur` draws for that subdirectory. */
  lemma {:induction false} RenderEntriesNesting(fs: FS, dir: string, prefix: string, entries: seq<string>, idx: nat)
    requires idx <= |entries|
    ensures Nests(RenderEntries(fs, dir, prefix, entries, idx), prefix, DirRow(fs, dir), ChildOf(fs, dir, prefix))
    decreases |entries| - idx
  {
    if idx < |entries| {
      var name := entries[idx];
      var branch := if idx == |entries| - 1 then LastBranch else MidBranch;
      var full := PathJoin(dir, name);
      var rest := RenderEntries(fs, dir, prefix, entries, idx + 1);
      RenderEntriesNesting(fs, dir, prefix, entries, idx + 1);
      if full in fs {
        var sub: seq<Row> := [];
        if fs[full].Directory? {
          LongerShrinks(fs, dir, name);
          sub := RenderDir(fs, full, prefix + Continuation(branch));
          RenderDirShape(fs, full, prefix + Continuation(branch));
        }
        assert RenderEntries(fs, dir, prefix, entries, idx) == [Row(prefix, branch, name)] + sub + rest;
        assert DirRow(fs, dir)(Row(prefix, branch, name)) ==> sub == ChildOf(fs, dir, prefix)(Row(prefix, branch, name));
        NestsOfConcat(prefix, DirRow(fs, dir), ChildOf(fs, dir, prefix), Row(prefix, branch, name), sub, rest);
      }
    }
  }

  /** Below each subdirectory's row of a directory's drawing come exactly
      the rows drawn for that subdirectory, with the row's continuation
      appended to the prefix. */
  lemma {:induction false} RenderDirNesting(fs: FS, dir: string, prefix: string)
    ensures Nests(RenderDir(fs, dir, prefix), prefix, DirRow(fs, dir), ChildOf(fs, dir, prefix))
  {
    RenderEntriesNesting(fs, dir, prefix, Entries(fs, dir), 0);
  }

  /** Every row off `prefix` lies inside the drawing that follows an earlier
      row at `prefix` which `isDir` picks: nothing is drawn below a file's
      row, and nothing outside a subdirectory's own rows. */
  ghost predicate Covered(rows: seq<Row>, prefix: string, isDir: Row -> bool, child: Row -> seq<Row>)
  {
    forall i :: 0 <= i < |rows| && rows[i].prefix != prefix ==>
      exists j :: 0 <= j < i && rows[j].prefix == prefix && isDir(rows[j]) && i <= j + |child(rows[j])|
  }

  lemma {:induction false} CoveredOfConcat(prefix: string, isDir: Row -> bool, child: Row -> seq<Row>,
                                           head: Row, sub: seq<Row>, rest: seq<Row>)
    requires head.prefix == prefix
    requires sub == if isDir(head) then child(head) else []
    requires Covered(rest, prefix, isDir, child)
    ensures Covered([head] + sub + rest, prefix, isDir, child)
  {
    var r := [head] + sub + rest;
    var off := 1 + |sub|;
    forall i | 0 <= i < |r| && r[i].prefix != prefix
      ensures exists j :: 0 <= j < i && r[j].prefix == prefix && isDir(r[j]) && i <= j + |child(r[j])|
    {
      assert r[0] == head;
      if i >= off {
        assert r[i] == rest[i - off];
        var j' :| 0 <= j' < i - off && rest[j'].prefix == prefix && isDir(rest[j']) && i - off <= j' + |child(rest[j'])|;
        assert r[j' + off] == rest[j'];
      }
    }
  }

  /** The entry loop draws nothing off its prefix except inside a
      subdirectory's drawing. */
  lemma {:induction false} RenderEntriesCovered(fs: FS, dir: string, prefix: string, entries: seq<string>, idx: nat)
    requires idx <= |entries|
    ensures Covered(RenderEntries(fs, dir, prefix, entries, idx), prefix, DirRow(fs, dir), ChildOf(fs, dir, prefix))
    decreases |entries| - idx
  {
    if idx < |entries| {
      var name := entries[idx];
      var branch := if idx == |entries| - 1 then LastBranch else MidBranch;
      var full := PathJoin(dir, name);
      var rest := RenderEntries(fs, dir, prefix, entries, idx + 1);
      RenderEntriesCovered(fs, dir, prefix, entries, idx + 1);
      if full in fs {
        var sub: seq<Row> := [];
        if fs[full].Directory? {
          LongerShrinks(fs, dir, name);
          sub := RenderDir(fs, full, prefix + Continuation(branch));
        }
        var head := Row(prefix, branch, name);
        assert RenderEntries(fs, dir, prefix, entries, idx) == [head] + sub + rest;
        assert sub == if DirRow(fs, dir)(head) then ChildOf(fs, dir, prefix)(head) else [];
        CoveredOfConcat(prefix, DirRow(fs, dir), ChildOf(fs, dir, prefix), head, sub, rest);
      }
    }
  }

  /** A directory's drawing holds, off its own prefix, only the drawings of
      its subdirectories, each right below the subdirectory's row. */
  lemma {:induction false} RenderDirCovered(fs: FS, dir: string, prefix: string)
    ensures Covered(RenderDir(fs, dir, prefix), prefix, DirRow(fs, dir), ChildOf(fs, dir, prefix))
  {
    RenderEntriesCovered(fs, dir, prefix, Entries(fs, dir), 0);
  }

  /** A row invented below a file's row is not covered: with `/r` listing
      the file `a`, the rows `└─ a` and `   └─ zzz` fail `Covered`. */
  lemma {:induction false} RowBelowFileNotCovered()
    ensures var fs := map["/r" := Directory(Some(["a"])), "/r/a" := File(Contents(""))];
      !Covered([Row("", LastBranch, "a"), Row(LastContinuation, LastBranch, "zzz")], "",
               DirRow(fs, "/r"), ChildOf(fs, "/r", ""))
  {
    var fs := map["/r" := Directory(Some(["a"])), "/r/a" := File(Contents(""))];
    var rows := [Row("", LastBranch, "a"), Row(LastContinuation, LastBranch, "zzz")];
    assert PathJoin("/r", "a") == "/r/a";
    assert !DirRow(fs, "/r")(rows[0]);
    assert rows[1].prefix != "";
  }

  /** The level facts hold at every depth: the rows right below a
      subdirectory's row are that subdirectory's drawing, and at their own
      prefix they draw its visible children in ascending order with the
      corner on the greatest one. */
  lemma {:induction false} SubdirectoryLevel(fs: FS, dir: string, prefix: string, i: nat)
    requires i < |RenderDir(fs, dir, prefix)|
    requires RenderDir(fs, dir, prefix)[i].prefix == prefix
    requires IsDirectory(fs, PathJoin(dir, RenderDir(fs, dir, prefix)[i].name))
    ensures var row := RenderDir(fs, dir, prefix)[i];
      var child := PathJoin(dir, row.name);
      var deeper := prefix + Continuation(row.branch);
      var s := RenderDir(fs, child, deeper);
      && SubtreeAt(RenderDir(fs, dir, prefix), i, s)
      && DrawsVisibleChildren(s, deeper, fs, child)
      && LevelSorted(s, deeper)
      && CornerIsLast(s, deeper)
      && GreatestHasCorner(s, deeper, fs, child)
      && CornerIsGreatest(s, deeper, fs, child)
  {
    var row := RenderDir(fs, dir, prefix)[i];
    RenderDirNesting(fs, dir, prefix);
    RenderDirLevel(fs, PathJoin(dir, row.name), prefix + Continuation(row.branch));
  }

  /** A rendered line is indented by two spaces unless it starts with the
      root's display name. */
  function Indent(line: string, displayRoot: string): string
  {
    if displayRoot <= line then line else "  " + line
  }

  /** Line `i` is row `i`, indented by two spaces exactly when it does not
      start with the display name. */
  ghost predicate LinesOfRows(lines: seq<string>, rows: seq<Row>, displayRoot: string)
  {
    && |lines| == |rows|
    && (forall i :: 0 <= i < |lines| ==> lines[i] == Line(rows[i]) || lines[i] == "  " + Line(rows[i]))
    && (forall i :: 0 <= i < |lines| ==> (lines[i] == Line(rows[i]) <==> displayRoot <= Line(rows[i])))
  }

  /** `renderAsciiTree(rootPath, displayRoot)`: the rows below `rootPath`,
      as lines. */
  function RenderAsciiTree(fs: FS, rootPath: string, displayRoot: string): (r: seq<string>)
    ensures |r| == |RenderDir(fs, rootPath, "")|
    ensures LinesOfRows(r, RenderDir(fs, rootPath, ""), displayRoot)
  {
    IndentRows(RenderDir(fs, rootPath, ""), displayRoot)
  }

  /** Each row as a line, indented unless it starts with the display name. */
  function IndentRows(rows: seq<Row>, displayRoot: string): (lines: seq<string>)
    ensures LinesOfRows(lines, rows, displayRoot)
  {
    if |rows| == 0 then []
    else
      var rest := IndentRows(rows[1..], displayRoot);
      var lines := [Indent(Line(rows[0]), displayRoot)] + rest;
      assert forall i :: 1 <= i < |lines| ==> lines[i] == rest[i - 1] && rows[i] == rows[1..][i - 1];
      lines
  }

  /** Every line starts with a continuation character or a branch glyph, so
      whenever the display name starts with neither, every line of the tree
      is indented. */
  lemma {:induction false} EveryLineIndented(fs: FS, rootPath: string, displayRoot: string)
    requires |displayRoot| > 0
    requires !IsContinuationChar(displayRoot[0]) && displayRoot[0] != '├' && displayRoot[0] != '└'
    ensures var rows := RenderDir(fs, rootPath, "");
      forall i :: 0 <= i < |rows| ==> RenderAsciiTree(fs, rootPath, displayRoot)[i] == "  " + Line(rows[i])
  {
    var rows := RenderDir(fs, rootPath, "");
    RenderDirShape(fs, rootPath, "");
    forall i | 0 <= i < |rows|
      ensures RenderAsciiTree(fs, rootPath, displayRoot)[i] == "  " + Line(rows[i])
    {
      var l := Line(rows[i]);
      if |rows[i].prefix| > 0 {
        assert l[0] == rows[i].prefix[0];
      } else {
        assert l[0] == rows[i].branch[0];
      }
      assert !(displayRoot <= l);
    }
  }

  /** The lines of `renderTreeSection(roots)`, before joining: each root's
      basename followed by its tree, inside a `text` fence. */
  function TreeSectionLines(fs: FS, roots: seq<string>): (r: seq<string>)
    ensures |r| >= 4
    ensures r[..2] == ["## Tree", "```text"]
    ensures r[|r| - 2..] == ["```", ""]
    ensures r[2..|r| - 2] == RootBlocks(fs, roots)
  {
    ["## Tree", "```text"] + RootBlocks(fs, roots) + ["```", ""]
  }

  /** For every root, its basename and then its indented tree. */
  function RootBlocks(fs: FS, roots: seq<string>): (r: seq<string>)
    ensures forall i :: 0 <= i < |roots| ==> Basename(roots[i]) in r
  {
    if |roots| == 0 then []
    else
      var rootName := Basename(roots[0]);
      var rest := RootBlocks(fs, roots[1..]);
      assert forall i :: 1 <= i < |roots| ==> roots[i] == roots[1..][i - 1];
      [rootName] + RenderAsciiTree(fs, roots[0], rootName) + rest
  }

  /** The root blocks are the loop over the roots with `renderAsciiTree`
      drawing each one. */
  lemma {:induction false} RootBlocksAreBlocks(fs: FS, roots: seq<string>)
    ensures RootBlocks(fs, roots) == Blocks(TreeOf(fs), roots)
  {
    if |roots| > 0 {
      RootBlocksAreBlocks(fs, roots[1..]);
      assert TreeOf(fs)(roots[0]) == RenderAsciiTree(fs, roots[0], Basename(roots[0]));
    }
  }

  /** `renderAsciiTree(root, basename(root))` for every root. */
  function TreeOf(fs: FS): string -> seq<string>
  {
    root => RenderAsciiTree(fs, root, Basename(root))
  }

  /** The loop of `renderTreeSection` over the roots, for any way `tree` of
      drawing one root. */
  function Blocks(tree: string -> seq<string>, roots: seq<string>): seq<string>
  {
    if |roots| == 0 then []
    else [Basename(roots[0])] + tree(roots[0]) + Blocks(tree, roots[1..])
  }

  /** Where the block of root `k` starts: each earlier root takes its name
      line and the lines of its tree. */
  ghost function BlockStart(tree: string -> seq<string>, roots: seq<string>, k: nat): nat
    requires k <= |roots|
  {
    if k == 0 then 0 else 1 + |tree(roots[0])| + BlockStart(tree, roots[1..], k - 1)
  }

  /** Line `o` of `r` is `name`, and `lines` follow it. */
  predicate BlockIs(r: seq<string>, o: nat, name: string, lines: seq<string>)
  {
    && o + 1 + |lines| <= |r|
    && r[o] == name
    && r[o + 1..o + 1 + |lines|] == lines
  }

  /** The block of root `k` is its basename followed by the lines `tree`
      draws for it, right after the blocks of the earlier roots. */
  lemma {:induction false} BlockAt(tree: string -> seq<string>, roots: seq<string>, k: nat)
    requires k < |roots|
    ensures BlockIs(Blocks(tree, roots), BlockStart(tree, roots, k), Basename(roots[k]), tree(roots[k]))
  {
    var first := [Basename(roots[0])] + tree(roots[0]);
    var rest := Blocks(tree, roots[1..]);
    assert Blocks(tree, roots) == first + rest;
    if k == 0 {
      BlockAtFront(Basename(roots[0]), tree(roots[0]), rest);
    } else {
      assert roots[1..][k - 1] == roots[k];
      BlockAt(tree, roots[1..], k - 1);
      BlockAfter(first, rest, BlockStart(tree, roots[1..], k - 1), Basename(roots[k]), tree(roots[k]));
    }
  }

  /** In root order, the block of root `k` is its basename followed by the
      lines of `renderAsciiTree` for it, right after the blocks of the
      earlier roots. */
  lemma {:induction false} RootBlockAt(fs: FS, roots: seq<string>, k: nat)
    requires k < |roots|
    ensures BlockIs(RootBlocks(fs, roots), BlockStart(TreeOf(fs), roots, k), Basename(roots[k]), TreeOf(fs)(roots[k]))
  {
    RootBlocksAreBlocks(fs, roots);
    BlockAt(TreeOf(fs), roots, k);
  }

  lemma {:induction false} BlockAtFront(name: string, lines: seq<string>, rest: seq<string>)
    ensures BlockIs([name] + lines + rest, 0, name, lines)
  {
    var r := [name] + lines + rest;
    assert r[1..1 + |lines|] == lines;
  }

  /** A block found in the later roots' lines, seen from the whole. */
  lemma {:induction false} BlockAfter(first: seq<string>, rest: seq<string>, o: nat, name: string, lines: seq<string>)
    requires BlockIs(rest, o, name, lines)
    ensures BlockIs(first + rest, |first| + o, name, lines)
  {
    var r := first + rest;
    assert r[|first| + o + 1..|first| + o + 1 + |lines|] == rest[o + 1..o + 1 + |lines|];
  }

  /** The root blocks hold nothing after the last root's tree. */
  lemma {:induction false} RootBlocksLength(tree: string -> seq<string>, roots: seq<string>)
    ensures |Blocks(tree, roots)| == BlockStart(tree, roots, |roots|)
  {
    if |roots| > 0 {
      RootBlocksLength(tree, roots[1..]);
    }
  }

  /** Joined, the section lines open with the heading and the fence. */
  lemma {:induction false} TreeSectionOpens(lines: seq<string>)
    requires |lines| >= 3 && lines[..2] == ["## Tree", "```text"]
    ensures "## Tree\n```text\n" <= Join(lines, "\n")
  {
    var tail := lines[1..];
    assert lines[0] == "## Tree" && tail[0] == "```text";
    assert Join(lines, "\n") == lines[0] + "\n" + Join(tail, "\n");
    assert Join(tail, "\n") == tail[0] + "\n" + Join(tail[1..], "\n");
  }

  /** Joined, section lines that end with the closing fence and an empty
      line end with the fence on a line of its own. */
  lemma {:induction false} TreeSectionCloses(lines: seq<string>)
    requires |lines| >= 3 && lines[|lines| - 2..] == ["```", ""]
    ensures var text := Join(lines, "\n");
      |text| >= 5 && text[|text| - 5..] == "\n```\n"
  {
    var init := lines[..|lines| - 1];
    var pre := init[..|init| - 1];
    assert lines == init + [""] && init == pre + ["```"];
    JoinSnoc(init, "", "\n");
    JoinSnoc(pre, "```", "\n");
  }

  /** `renderTreeSection(roots)`: the root blocks inside a `text` fence. */
  function RenderTreeSection(fs: FS, roots: seq<string>): (r: string)
    ensures "## Tree\n```text\n" <= r
    ensures |r| >= 5 && r[|r| - 5..] == "\n```\n"
  {
    var lines := TreeSectionLines(fs, roots);
    TreeSectionOpens(lines);
    TreeSectionCloses(lines);
    Join(lines, "\n")
  }
}
