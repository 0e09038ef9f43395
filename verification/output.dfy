/** Assembly of the copied document (`buildOutput`) and the command that
    produces it: a header naming the workspace and the roots, then the
    chosen sections in the fixed order Tree, Files, Diagnostics. */
module Output {
  import opened Wrappers
  import opened Strings
  import opened Seqs
  import opened FileSystem
  import opened Walker
  import opened AsciiTree
  import opened FileFormat
  import opened Diagnostics

  /** `SectionChoice`. */
  datatype Section = TreeSection | FilesSection | DiagnosticsSection

  /** The place of a section in the document. */
  function Rank(s: Section): nat
  {
    match s
    case TreeSection => 0
    case FilesSection => 1
    case DiagnosticsSection => 2
  }

  /** What the host supplies: the filesystem, the first workspace folder's
      path (empty when there is none), `path.relative`,
      `vscode.workspace.asRelativePath`, `path.normalize` and the editor's
      diagnostics registry. */
  datatype Host = Host(
    fs: FS,
    workspace: string,
    relative: (string, string) -> string,
    asRelativePath: string -> string,
    normalize: string -> string,
    reports: seq<Report>)

  const Title: string := "# Copy for LLM"

  /** The chosen sections in document order, whatever order the choice was
      made in. */
  function ChosenSections(chosen: set<Section>): (r: seq<Section>)
    ensures forall s :: s in r <==> s in chosen
    ensures forall i, j :: 0 <= i < j < |r| ==> Rank(r[i]) < Rank(r[j])
  {
    var r := Only(TreeSection, chosen) + Only(FilesSection, chosen) + Only(DiagnosticsSection, chosen);
    assert forall s :: s in r <==> s in chosen by {
      forall s ensures s in r <==> s in chosen {
        assert s == TreeSection || s == FilesSection || s == DiagnosticsSection;
      }
    }
    r
  }

  /** `[s]` when `s` is chosen, nothing otherwise. */
  function Only(s: Section, chosen: set<Section>): (r: seq<Section>)
    ensures forall x :: x in r <==> x == s && s in chosen
    ensures |r| <= 1
  {
    if s in chosen then [s] else []
  }

  /** Two lists of sections in strictly increasing rank with the same
      members are the same list. */
  lemma {:induction false} RankSortedUnique(a: seq<Section>, b: seq<Section>)
    requires forall i, j :: 0 <= i < j < |a| ==> Rank(a[i]) < Rank(a[j])
    requires forall i, j :: 0 <= i < j < |b| ==> Rank(b[i]) < Rank(b[j])
    requires forall s :: s in a <==> s in b
    ensures a == b
  {
    assert |a| > 0 ==> a[0] in b;
    assert |b| > 0 ==> b[0] in a;
    if |a| > 0 && |b| > 0 {
      var ka :| 0 <= ka < |b| && b[ka] == a[0];
      var kb :| 0 <= kb < |a| && a[kb] == b[0];
      assert Rank(b[0]) <= Rank(a[0]) <= Rank(b[0]);
      assert a[0] == b[0];
      assert a == [a[0]] + a[1..] && b == [b[0]] + b[1..];
      assert forall k :: 1 <= k < |a| ==> a[k] != a[0];
      assert forall k :: 1 <= k < |b| ==> b[k] != b[0];
      forall s ensures s in a[1..] <==> s in b[1..] {
        assert s in a[1..] ==> s in a && s != a[0];
        assert s in b[1..] ==> s in b && s != b[0];
      }
      RankSortedUnique(a[1..], b[1..]);
      assert a == [a[0]] + a[1..] && b == [b[0]] + b[1..];
    }
  }

  /** The document order is the only order of the chosen sections with
      increasing rank. */
  lemma {:induction false} FixedOrderIsUnique(chosen: set<Section>, order: seq<Section>)
    requires forall s :: s in order <==> s in chosen
    requires forall i, j :: 0 <= i < j < |order| ==> Rank(order[i]) < Rank(order[j])
    ensures order == ChosenSections(chosen)
  {
    RankSortedUnique(order, ChosenSections(chosen));
  }

  /** `rel(p)`: relative to the workspace when there is one, falling back to
      the basename when the relative path is empty; the path itself
      otherwise. */
  function Rel(host: Host, p: string): (r: string)
    ensures host.workspace == "" ==> r == p
    ensures host.workspace != "" && host.relative(host.workspace, p) != "" ==> r == host.relative(host.workspace, p)
    ensures host.workspace != "" && host.relative(host.workspace, p) == "" ==> r == Basename(p)
  {
    if host.workspace != "" then
      var r := host.relative(host.workspace, p);
      if r != "" then r else Basename(p)
    else p
  }

  function Quoted(s: string): string
  {
    "`" + s + "`"
  }

  /** The roots line of the header: `Root:` with exactly one root, `Roots:`
      and the comma-joined list otherwise. */
  function RootsLine(host: Host, roots: seq<string>): (line: string)
    requires |roots| > 0
    ensures |roots| == 1 ==> line == "Root: " + Quoted(Rel(host, roots[0]))
    ensures |roots| > 1 ==> exists quoted: seq<string> ::
      && |quoted| == |roots|
      && (forall i :: 0 <= i < |roots| ==> quoted[i] == Quoted(Rel(host, roots[i])))
      && line == "Roots: " + Join(quoted, ", ")
  {
    if |roots| > 1 then "Roots: " + Join(Map(r => Quoted(Rel(host, r)), roots), ", ")
    else "Root: " + Quoted(Rel(host, roots[0]))
  }

  /** A string does not start with a text whose first character differs
      from its own. */
  lemma {:induction false} NotPrefixByFirst(p: string, s: string)
    requires |p| > 0 && |s| > 0 && p[0] != s[0]
    ensures !(p <= s)
  {
  }

  /** The header lines, after `filter(Boolean)` has dropped the absent
      workspace line. */
  function HeaderLines(host: Host, roots: seq<string>): (lines: seq<string>)
    requires |roots| > 0
    ensures |lines| == (if host.workspace != "" then 3 else 2)
    ensures lines[0] == Title && lines[|lines| - 1] == RootsLine(host, roots)
    ensures host.workspace != "" ==> lines[1] == "Workspace: " + Quoted(Basename(host.workspace))
  {
    var rootsLine := RootsLine(host, roots);
    if host.workspace != "" then [Title, "Workspace: " + Quoted(Basename(host.workspace)), rootsLine]
    else [Title, rootsLine]
  }

  /** The header has a workspace line exactly when there is a workspace
      folder. */
  lemma {:induction false} WorkspaceLineIffWorkspace(host: Host, roots: seq<string>)
    requires |roots| > 0
    ensures (exists i :: 0 <= i < |HeaderLines(host, roots)| && "Workspace: " <= HeaderLines(host, roots)[i])
            <==> host.workspace != ""
  {
    var lines := HeaderLines(host, roots);
    var rootsLine := RootsLine(host, roots);
    NotPrefixByFirst("Workspace: ", Title);
    NotPrefixByFirst("Workspace: ", rootsLine);
    if host.workspace != "" {
      assert "Workspace: " <= lines[1];
    } else {
      assert lines == [Title, rootsLine];
    }
  }

  /** The text of one section. */
  function RenderSection(host: Host, files: seq<string>, roots: seq<string>, s: Section): (text: string)
    ensures s == TreeSection ==> "## Tree" <= text
    ensures s == FilesSection ==> "## Files" <= text
    ensures s == DiagnosticsSection ==> "## Diagnostics" <= text
    ensures s == TreeSection ==> text == RenderTreeSection(host.fs, roots)
    ensures s == FilesSection ==> text == RenderFilesSection(host.fs, host.asRelativePath, files)
    ensures s == DiagnosticsSection ==>
      text == RenderDiagnosticsSection(host.normalize, host.asRelativePath, files, roots, host.reports)
  {
    match s
    case TreeSection => RenderTreeSection(host.fs, roots)
    case FilesSection => RenderFilesSection(host.fs, host.asRelativePath, files)
    case DiagnosticsSection => RenderDiagnosticsSection(host.normalize, host.asRelativePath, files, roots, host.reports)
  }

  /** The chosen sections' texts in document order. */
  function SectionTexts(host: Host, files: seq<string>, roots: seq<string>, chosen: set<Section>): (texts: seq<string>)
    ensures |texts| == |ChosenSections(chosen)|
    ensures forall i :: 0 <= i < |texts| ==> texts[i] == RenderSection(host, files, roots, ChosenSections(chosen)[i])
  {
    Map(s => RenderSection(host, files, roots, s), ChosenSections(chosen))
  }

  /** Joining the header, a blank line and the sections by newlines. */
  lemma {:induction false} JoinedDocument(header: string, texts: seq<string>)
    ensures |texts| == 0 ==> Join([header, ""] + texts, "\n") == header + "\n"
    ensures |texts| > 0 ==> Join([header, ""] + texts, "\n") == header + "\n\n" + Join(texts, "\n")
  {
    var top := [header, ""];
    assert top == [header] + [""];
    JoinSnoc([header], "", "\n");
    assert Join(top, "\n") == header + "\n";
    if |texts| > 0 {
      JoinAppend(top, texts, "\n");
      assert header + "\n" + "\n" == header + "\n\n";
    } else {
      assert top + texts == top;
    }
  }

  /** `buildOutput(files, roots, chosen)`: the header, a blank line, and the
      chosen sections in document order, all joined by newlines. */
  function BuildOutput(host: Host, files: seq<string>, roots: seq<string>, chosen: set<Section>): (r: string)
    requires |roots| > 0
    ensures Title <= r
    ensures chosen == {} ==> r == Join(HeaderLines(host, roots), "\n") + "\n"
    ensures chosen != {} ==>
      r == Join(HeaderLines(host, roots), "\n") + "\n\n" + Join(SectionTexts(host, files, roots, chosen), "\n")
  {
    var lines := HeaderLines(host, roots);
    var header := Join(lines, "\n");
    var texts := SectionTexts(host, files, roots, chosen);
    assert chosen != {} ==> |ChosenSections(chosen)| > 0 by {
      if chosen != {} {
        var s :| s in chosen;
        assert s in ChosenSections(chosen);
      }
    }
    JoinedDocument(header, texts);
    assert Title <= header;
    Join([header, ""] + texts, "\n")
  }

  /** The outcome of one invocation of the copy command. */
  datatype Outcome =
    | NothingSelected
    | Cancelled
    | Failed(message: string)
    | NoFiles
    | Copied(text: string)

  /** The command handler: normalise the targets, take the section choice
      (`None` when the prompt is dismissed), collect the files, and copy the
      document. A failing `stat` on a target aborts with its message. */
  function Copy(host: Host, uri: Option<string>, uris: Option<seq<string>>, choice: Option<set<Section>>): (o: Outcome)
    ensures o == NothingSelected <==> NormalizeTargets(uri, uris) == []
    ensures o == Cancelled <==> NormalizeTargets(uri, uris) != [] && choice.None?
    ensures o.Failed? <==> (NormalizeTargets(uri, uris) != [] && choice.Some? &&
      exists i :: 0 <= i < |NormalizeTargets(uri, uris)| && NormalizeTargets(uri, uris)[i] !in host.fs)
    ensures o.Copied? ==> Title <= o.text
    ensures o.Copied? ==>
      var targets := NormalizeTargets(uri, uris);
      && choice.Some?
      && CollectFiles(host.fs, targets).Success?
      && CollectFiles(host.fs, targets).value.files != []
      && o.text == BuildOutput(host, CollectFiles(host.fs, targets).value.files, targets, choice.value)
  {
    var targets := NormalizeTargets(uri, uris);
    if targets == [] then NothingSelected
    else if choice.None? then Cancelled
    else match CollectFiles(host.fs, targets)
      case Failure(e) => Failed(e)
      case Success(c) =>
        if c.files == [] then NoFiles
        else Copied(BuildOutput(host, c.files, c.roots, choice.value))
  }

  /** Nothing is copied exactly when no target contributes a file. */
  lemma {:induction false} NoFilesWhenNothingFound(host: Host, uri: Option<string>, uris: Option<seq<string>>, choice: Option<set<Section>>)
    requires Copy(host, uri, uris, choice) != NothingSelected
    requires Copy(host, uri, uris, choice) != Cancelled
    requires !Copy(host, uri, uris, choice).Failed?
    ensures var targets := NormalizeTargets(uri, uris);
      Copy(host, uri, uris, choice) == NoFiles <==>
        forall i, p :: 0 <= i < |targets| ==> !Finds(host.fs, targets[i], p)
  {
    var targets := NormalizeTargets(uri, uris);
    var c := CollectFiles(host.fs, targets).value;
    if c.files != [] {
      assert c.files[0] in c.files;
    } else {
      forall i, p | 0 <= i < |targets| ensures !Finds(host.fs, targets[i], p) {
        assert p !in c.files;
      }
    }
  }
}
