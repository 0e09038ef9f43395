/** The Diagnostics section (`collectDiagnostics`, `renderDiagnosticsSection`,
    `severityLabel`): the problems the editor currently reports for the
    selected files and for everything below the selected folders, grouped by
    file in the order the editor lists them.

    The editor's registry (`vscode.languages.getDiagnostics()`) is a list of
    reports, one per resource, each carrying the resource's `fsPath` and its
    diagnostics. An entry of that list may be missing (`undefined`), which
    `filter(Boolean)` drops. `path.normalize` is a parameter. */
module Diagnostics {
  import opened Wrappers
  import opened Strings
  import opened FileSystem
  import opened Seqs

  /** The `code` of a diagnostic: absent, a string, an integer, or an object
      of the form `{ value, target }`. */
  datatype Code = NoCode | StrCode(s: string) | NumCode(n: int) | ObjectCode

  /** `vscode.Diagnostic`: the severity is the numeric value of
      `vscode.DiagnosticSeverity` (Error 0, Warning 1, Information 2, Hint 3);
      the position is the zero-based start of its range. */
  datatype Diagnostic = Diagnostic(severity: int, line: nat, character: nat, code: Code, message: string)

  /** One `[Uri, Diagnostic[]]` pair of the registry. */
  datatype Report = Report(uri: string, diags: seq<Option<Diagnostic>>)

  /** One entry of the `byFile` map: a normalised path and its diagnostics. */
  datatype Group<T> = Group(path: string, items: seq<T>)

  /** `severityLabel(sev)`. The Information severity is labelled `Info`. */
  function SeverityLabel(sev: int): (name: string)
    ensures name == "Unknown" <==> !(0 <= sev <= 3)
    ensures SeverityOf(name) == (if 0 <= sev <= 3 then Some(sev) else None)
  {
    if sev == 0 then "Error"
    else if sev == 1 then "Warning"
    else if sev == 2 then "Info"
    else if sev == 3 then "Hint"
    else "Unknown"
  }

  /** The severity a label stands for; the reading side of `SeverityLabel`. */
  function SeverityOf(name: string): Option<int>
  {
    if name == "Error" then Some(0)
    else if name == "Warning" then Some(1)
    else if name == "Info" then Some(2)
    else if name == "Hint" then Some(3)
    else None
  }

  /** Whether `d.code` is truthy in JavaScript. */
  predicate Truthy(code: Code)
  {
    match code
    case NoCode => false
    case StrCode(s) => s != ""
    case NumCode(n) => n != 0
    case ObjectCode => true
  }

  /** `String(code)`. */
  function CodeText(code: Code): string
  {
    match code
    case NoCode => "undefined"
    case StrCode(s) => s
    case NumCode(n) => IntToDecimal(n)
    case ObjectCode => "[object Object]"
  }

  /** The bracketed code after the position; nothing for a falsy code. */
  function CodeSuffix(code: Code): (r: string)
    ensures r == "" <==> !Truthy(code)
    ensures Truthy(code) ==> r == " [" + CodeText(code) + "]"
  {
    if Truthy(code) then " [" + CodeText(code) + "]" else ""
  }

  /** `line:character`, both counted from one. */
  function Position(line: nat, character: nat): (r: string)
    ensures exists k ::
      && 0 < k < |r| - 1 && r[k] == ':'
      && r[0] != '0' && r[k + 1] != '0'
      && IsDigits(r[..k]) && DecimalValue(r[..k]) == line + 1
      && IsDigits(r[k + 1..]) && DecimalValue(r[k + 1..]) == character + 1
  {
    var l := NatToDecimal(line + 1);
    var c := NatToDecimal(character + 1);
    var r := l + ":" + c;
    DecimalRoundTrip(line + 1);
    DecimalRoundTrip(character + 1);
    assert r[..|l|] == l && r[|l| + 1..] == c;
    r
  }

  /** One bullet of the section: severity, position, code and message. */
  function DiagnosticLine(d: Diagnostic): (r: string)
    ensures |r| == 5 + |SeverityLabel(d.severity)| + |Position(d.line, d.character)| +
                   |CodeSuffix(d.code)| + 3 + |d.message|
    ensures "- (" + SeverityLabel(d.severity) + ") " + Position(d.line, d.character) <= r
    ensures var h := 5 + |SeverityLabel(d.severity)| + |Position(d.line, d.character)|;
      var c := |CodeSuffix(d.code)|;
      && r[h..h + c] == CodeSuffix(d.code)
      && r[h + c..h + c + 3] == " — "
      && r[h + c + 3..] == d.message
  {
    FourParts("- (" + SeverityLabel(d.severity) + ") " + Position(d.line, d.character),
              CodeSuffix(d.code), " — ", d.message);
    "- (" + SeverityLabel(d.severity) + ") " + Position(d.line, d.character)
      + CodeSuffix(d.code) + " — " + d.message
  }

  /** `arr.filter(Boolean)`: the diagnostics that are present, in order. */
  function Present(ds: seq<Option<Diagnostic>>): (r: seq<Diagnostic>)
    ensures |r| <= |ds|
    ensures forall d :: d in r <==> Some(d) in ds
  {
    if |ds| == 0 then []
    else
      var rest := Present(ds[1..]);
      assert forall x :: x in ds <==> x == ds[0] || x in ds[1..];
      match ds[0]
      case Some(d) => [d] + rest
      case None => rest
  }

  /** Filtering distributes over concatenation, so the present diagnostics
      keep the order of the list they come from. */
  lemma {:induction false} PresentAppend(a: seq<Option<Diagnostic>>, b: seq<Option<Diagnostic>>)
    ensures Present(a + b) == Present(a) + Present(b)
  {
    if |a| > 0 {
      assert (a + b)[1..] == a[1..] + b;
      PresentAppend(a[1..], b);
    } else {
      assert a + b == b;
    }
  }

  /** A normalised path is selected when it is one of the selected files or
      lies strictly inside one of the selected roots. A root `/a/b` does not
      select its sibling `/a/bc`, because the separator must follow it. */
  predicate Selected(normalize: string -> string, files: seq<string>, roots: seq<string>, p: string): (b: bool)
    ensures b <==> (exists f :: f in files && normalize(f) == p) ||
                   (exists root :: root in roots && normalize(root) + Sep <= p)
  {
    var fileSet := Map(normalize, files);
    assert forall f :: f in files ==> normalize(f) in fileSet by {
      forall f | f in files ensures normalize(f) in fileSet {
        var i :| 0 <= i < |files| && files[i] == f;
        assert fileSet[i] == normalize(f);
      }
    }
    p in fileSet || (exists root :: root in roots && normalize(root) + Sep <= p)
  }

  /** A root selects the paths below it and not a sibling that merely
      shares its spelling: with root `/a/b`, `/a/b/x` is selected and
      `/a/bc/x` is not. */
  lemma {:induction false} SiblingOfRootNotSelected(normalize: string -> string)
    requires normalize("/a/b") == "/a/b"
    ensures Selected(normalize, [], ["/a/b"], "/a/b/x")
    ensures !Selected(normalize, [], ["/a/b"], "/a/bc/x")
  {
    assert "/a/b" + Sep <= "/a/b/x";
    assert ("/a/b" + Sep)[4] != "/a/bc/x"[4];
  }

  /** Every diagnostic the registry reports for the normalised path `p`, in
      registry order: the reference of what `byFile` gathers for `p`. */
  function Gathered(normalize: string -> string, reports: seq<Report>, p: string): seq<Option<Diagnostic>>
  {
    if |reports| == 0 then []
    else
      var last := reports[|reports| - 1];
      Gathered(normalize, reports[..|reports| - 1], p) + (if normalize(last.uri) == p then last.diags else [])
  }

  /** The index of the first report whose normalised path is `p`, or the
      number of reports when there is none. */
  function FirstIndex(normalize: string -> string, reports: seq<Report>, p: string): (r: nat)
    ensures r <= |reports|
  {
    if |reports| == 0 then 0
    else if normalize(reports[0].uri) == p then 0
    else 1 + FirstIndex(normalize, reports[1..], p)
  }

  /** `FirstIndex` finds the first occurrence: the report there has path
      `p`, and none before it has. */
  lemma {:induction false} FirstIndexSpec(normalize: string -> string, reports: seq<Report>, p: string)
    ensures var r := FirstIndex(normalize, reports, p);
      && (r < |reports| ==> normalize(reports[r].uri) == p)
      && (forall a :: 0 <= a < r ==> normalize(reports[a].uri) != p)
  {
    if |reports| > 0 && normalize(reports[0].uri) != p {
      FirstIndexSpec(normalize, reports[1..], p);
      assert forall a :: 1 <= a < |reports| ==> reports[a] == reports[1..][a - 1];
    }
  }

  /** The position of `p` among the paths of `g`, if it is there. */
  function IndexOfPath<T>(g: seq<Group<T>>, p: string): (r: Option<nat>)
    ensures r.Some? ==> r.value < |g| && g[r.value].path == p
    ensures r.None? ==> forall i :: 0 <= i < |g| ==> g[i].path != p
  {
    if |g| == 0 then None
    else if g[|g| - 1].path == p then Some(|g| - 1)
    else IndexOfPath(g[..|g| - 1], p)
  }

  /** Appending diagnostics under a path: a path already present keeps its
      place and grows, a new path gets a group at the end. */
  function AddTo(g: seq<Group<Option<Diagnostic>>>, p: string, diags: seq<Option<Diagnostic>>): seq<Group<Option<Diagnostic>>>
  {
    match IndexOfPath(g, p)
    case Some(i) => g[i := Group(p, g[i].items + diags)]
    case None => g + [Group(p, diags)]
  }

  /** The first loop of `collectDiagnostics`, over the registry in order. */
  function GroupRaw(normalize: string -> string, files: seq<string>, roots: seq<string>, reports: seq<Report>): (r: seq<Group<Option<Diagnostic>>>)
    ensures |r| <= |reports|
    ensures forall i :: 0 <= i < |r| ==> Selected(normalize, files, roots, r[i].path)
  {
    if |reports| == 0 then []
    else
      var g := GroupRaw(normalize, files, roots, reports[..|reports| - 1]);
      var last := reports[|reports| - 1];
      var p := normalize(last.uri);
      if Selected(normalize, files, roots, p) then AddTo(g, p, last.diags) else g
  }

  ghost predicate DistinctPaths<T>(g: seq<Group<T>>)
  {
    forall i, j :: 0 <= i < j < |g| ==> g[i].path != g[j].path
  }

  /** Groups come in the order their paths first occur in the registry. */
  ghost predicate FirstSeenOrder<T>(normalize: string -> string, reports: seq<Report>, g: seq<Group<T>>)
  {
    forall i, j :: 0 <= i < j < |g| ==>
      FirstIndex(normalize, reports, g[i].path) < FirstIndex(normalize, reports, g[j].path)
  }

  /** Groups in first-seen order have distinct paths. */
  lemma {:induction false} FirstSeenOrderIsDistinct<T>(normalize: string -> string, reports: seq<Report>, g: seq<Group<T>>)
    requires FirstSeenOrder(normalize, reports, g)
    ensures DistinctPaths(g)
  {
    forall i, j | 0 <= i < j < |g| ensures g[i].path != g[j].path {
      assert FirstIndex(normalize, reports, g[i].path) < FirstIndex(normalize, reports, g[j].path);
    }
  }

  /** Every group is a selected path of the registry holding everything the
      registry reports for it. */
  ghost predicate RawSound(normalize: string -> string, files: seq<string>, roots: seq<string>, reports: seq<Report>,
                           g: seq<Group<Option<Diagnostic>>>)
  {
    forall i :: 0 <= i < |g| ==>
      && Selected(normalize, files, roots, g[i].path)
      && g[i].items == Gathered(normalize, reports, g[i].path)
      && FirstIndex(normalize, reports, g[i].path) < |reports|
  }

  /** Every selected path of the registry has a group. */
  ghost predicate RawComplete(normalize: string -> string, files: seq<string>, roots: seq<string>, reports: seq<Report>,
                              g: seq<Group<Option<Diagnostic>>>)
  {
    forall b :: 0 <= b < |reports| && Selected(normalize, files, roots, normalize(reports[b].uri)) ==>
      IndexOfPath(g, normalize(reports[b].uri)).Some?
  }

  ghost predicate RawInv(normalize: string -> string, files: seq<string>, roots: seq<string>, reports: seq<Report>,
                         g: seq<Group<Option<Diagnostic>>>)
  {
    && FirstSeenOrder(normalize, reports, g)
    && RawSound(normalize, files, roots, reports, g)
    && RawComplete(normalize, files, roots, reports, g)
  }

  /** A path the registry never reports has nothing gathered. */
  lemma {:induction false} GatheredAbsent(normalize: string -> string, reports: seq<Report>, p: string)
    requires forall b :: 0 <= b < |reports| ==> normalize(reports[b].uri) != p
    ensures Gathered(normalize, reports, p) == []
  {
    if |reports| > 0 {
      var pre := reports[..|reports| - 1];
      assert forall a :: 0 <= a < |pre| ==> pre[a] == reports[a];
      GatheredAbsent(normalize, pre, p);
    }
  }

  /** Appending one report moves the first occurrence of a path only when
      the path did not occur before. */
  lemma {:induction false} FirstIndexSnoc(normalize: string -> string, pre: seq<Report>, last: Report, k: string)
    ensures FirstIndex(normalize, pre + [last], k) ==
      if FirstIndex(normalize, pre, k) < |pre| then FirstIndex(normalize, pre, k)
      else if normalize(last.uri) == k then |pre|
      else |pre| + 1
  {
    if |pre| > 0 {
      assert (pre + [last])[1..] == pre[1..] + [last];
      FirstIndexSnoc(normalize, pre[1..], last, k);
    }
  }

  /** Appending one report adds its diagnostics to its own path's gathering
      and to no other, and moves first occurrences as `FirstIndexSnoc` says. */
  lemma {:induction false} SnocFacts(normalize: string -> string, pre: seq<Report>, last: Report, k: string)
    ensures FirstIndex(normalize, pre + [last], k) ==
      if FirstIndex(normalize, pre, k) < |pre| then FirstIndex(normalize, pre, k)
      else if normalize(last.uri) == k then |pre|
      else |pre| + 1
    ensures Gathered(normalize, pre + [last], k) ==
      Gathered(normalize, pre, k) + (if normalize(last.uri) == k then last.diags else [])
  {
    assert (pre + [last])[..|pre|] == pre;
    FirstIndexSnoc(normalize, pre, last, k);
  }

  /** A report whose path is not selected leaves the groups alone. */
  lemma {:induction false} StepSkip(normalize: string -> string, files: seq<string>, roots: seq<string>, pre: seq<Report>, last: Report,
                 g0: seq<Group<Option<Diagnostic>>>)
    requires RawInv(normalize, files, roots, pre, g0)
    requires !Selected(normalize, files, roots, normalize(last.uri))
    ensures RawInv(normalize, files, roots, pre + [last], g0)
  {
    var reports := pre + [last];
    forall i | 0 <= i < |g0|
      ensures FirstIndex(normalize, reports, g0[i].path) == FirstIndex(normalize, pre, g0[i].path)
      ensures Gathered(normalize, reports, g0[i].path) == Gathered(normalize, pre, g0[i].path)
    {
      SnocFacts(normalize, pre, last, g0[i].path);
    }
    assert forall b :: 0 <= b < |pre| ==> reports[b] == pre[b];
  }

  /** A report for a path that already has a group extends that group. */
  lemma {:induction false} StepMerge(normalize: string -> string, files: seq<string>, roots: seq<string>, pre: seq<Report>, last: Report,
                  g0: seq<Group<Option<Diagnostic>>>, i0: nat)
    requires RawInv(normalize, files, roots, pre, g0)
    requires i0 < |g0| && g0[i0].path == normalize(last.uri)
    ensures RawInv(normalize, files, roots, pre + [last],
                   g0[i0 := Group(normalize(last.uri), g0[i0].items + last.diags)])
  {
    var reports := pre + [last];
    var g := g0[i0 := Group(normalize(last.uri), g0[i0].items + last.diags)];
    forall i | 0 <= i < |g0|
      ensures g[i].path == g0[i].path
      ensures FirstIndex(normalize, reports, g[i].path) == FirstIndex(normalize, pre, g0[i].path)
      ensures Gathered(normalize, reports, g[i].path) == g[i].items
    {
      SnocFacts(normalize, pre, last, g0[i].path);
    }
    forall i | 0 <= i < |g|
      ensures Selected(normalize, files, roots, g[i].path)
      ensures FirstIndex(normalize, reports, g[i].path) < |reports|
    {
    }
    forall i, j | 0 <= i < j < |g|
      ensures g[i].path != g[j].path
      ensures FirstIndex(normalize, reports, g[i].path) < FirstIndex(normalize, reports, g[j].path)
    {
    }
    StepMergeComplete(normalize, files, roots, pre, last, g0, i0);
  }

  lemma {:induction false} StepMergeComplete(normalize: string -> string, files: seq<string>, roots: seq<string>, pre: seq<Report>,
                          last: Report, g0: seq<Group<Option<Diagnostic>>>, i0: nat)
    requires RawComplete(normalize, files, roots, pre, g0)
    requires i0 < |g0| && g0[i0].path == normalize(last.uri)
    ensures RawComplete(normalize, files, roots, pre + [last],
                        g0[i0 := Group(normalize(last.uri), g0[i0].items + last.diags)])
  {
    var reports := pre + [last];
    var g := g0[i0 := Group(normalize(last.uri), g0[i0].items + last.diags)];
    assert forall i :: 0 <= i < |g| ==> g[i].path == g0[i].path;
    assert forall b :: 0 <= b < |pre| ==> reports[b] == pre[b];
    forall b | 0 <= b < |reports| && Selected(normalize, files, roots, normalize(reports[b].uri))
      ensures IndexOfPath(g, normalize(reports[b].uri)).Some?
    {
      if b < |pre| {
        var i := IndexOfPath(g0, normalize(reports[b].uri)).value;
        assert g[i].path == normalize(reports[b].uri);
      } else {
        assert g[i0].path == normalize(reports[b].uri);
      }
    }
  }

  /** A report for a selected path without a group opens a new, last group. */
  lemma {:induction false} StepAppend(normalize: string -> string, files: seq<string>, roots: seq<string>, pre: seq<Report>, last: Report,
                   g0: seq<Group<Option<Diagnostic>>>)
    requires RawInv(normalize, files, roots, pre, g0)
    requires Selected(normalize, files, roots, normalize(last.uri))
    requires IndexOfPath(g0, normalize(last.uri)).None?
    ensures RawInv(normalize, files, roots, pre + [last], g0 + [Group(normalize(last.uri), last.diags)])
  {
    var p := normalize(last.uri);
    assert forall b :: 0 <= b < |pre| ==> normalize(pre[b].uri) != p;
    GatheredAbsent(normalize, pre, p);
    FirstIndexSpec(normalize, pre, p);
    forall i | 0 <= i < |g0|
      ensures FirstIndex(normalize, pre + [last], g0[i].path) == FirstIndex(normalize, pre, g0[i].path)
      ensures Gathered(normalize, pre + [last], g0[i].path) == g0[i].items
    {
      SnocFacts(normalize, pre, last, g0[i].path);
    }
    SnocFacts(normalize, pre, last, p);
    StepAppendOrder(normalize, pre, last, g0);
    StepAppendSound(normalize, files, roots, pre, last, g0);
    StepAppendComplete(normalize, files, roots, pre, last, g0);
  }

  /** The new group comes last in first-seen order. */
  lemma {:induction false} StepAppendOrder(normalize: string -> string, pre: seq<Report>, last: Report, g0: seq<Group<Option<Diagnostic>>>)
    requires FirstSeenOrder(normalize, pre, g0)
    requires forall i :: 0 <= i < |g0| ==> FirstIndex(normalize, pre, g0[i].path) < |pre|
    requires forall i :: 0 <= i < |g0| ==>
      FirstIndex(normalize, pre + [last], g0[i].path) == FirstIndex(normalize, pre, g0[i].path)
    requires FirstIndex(normalize, pre + [last], normalize(last.uri)) == |pre|
    ensures FirstSeenOrder(normalize, pre + [last], g0 + [Group(normalize(last.uri), last.diags)])
  {
    var reports := pre + [last];
    var g := g0 + [Group(normalize(last.uri), last.diags)];
    forall i, j | 0 <= i < j < |g|
      ensures FirstIndex(normalize, reports, g[i].path) < FirstIndex(normalize, reports, g[j].path)
    {
      assert g[i] == g0[i];
      if j < |g0| {
        assert g[j] == g0[j];
      }
    }
  }

  /** The new group holds everything the registry reports for its path. */
  lemma {:induction false} StepAppendSound(normalize: string -> string, files: seq<string>, roots: seq<string>, pre: seq<Report>,
                        last: Report, g0: seq<Group<Option<Diagnostic>>>)
    requires RawSound(normalize, files, roots, pre, g0)
    requires Selected(normalize, files, roots, normalize(last.uri))
    requires forall i :: 0 <= i < |g0| ==>
      FirstIndex(normalize, pre + [last], g0[i].path) == FirstIndex(normalize, pre, g0[i].path)
    requires forall i :: 0 <= i < |g0| ==> Gathered(normalize, pre + [last], g0[i].path) == g0[i].items
    requires FirstIndex(normalize, pre + [last], normalize(last.uri)) == |pre|
    requires Gathered(normalize, pre + [last], normalize(last.uri)) == last.diags
    ensures RawSound(normalize, files, roots, pre + [last], g0 + [Group(normalize(last.uri), last.diags)])
  {
    var reports := pre + [last];
    var g := g0 + [Group(normalize(last.uri), last.diags)];
    forall i | 0 <= i < |g|
      ensures Selected(normalize, files, roots, g[i].path)
      ensures g[i].items == Gathered(normalize, reports, g[i].path)
      ensures FirstIndex(normalize, reports, g[i].path) < |reports|
    {
      if i < |g0| {
        assert g[i] == g0[i];
      } else {
        assert g[i] == Group(normalize(last.uri), last.diags);
      }
    }
  }

  lemma {:induction false} StepAppendComplete(normalize: string -> string, files: seq<string>, roots: seq<string>, pre: seq<Report>,
                           last: Report, g0: seq<Group<Option<Diagnostic>>>)
    requires RawComplete(normalize, files, roots, pre, g0)
    ensures RawComplete(normalize, files, roots, pre + [last], g0 + [Group(normalize(last.uri), last.diags)])
  {
    var reports := pre + [last];
    var g := g0 + [Group(normalize(last.uri), last.diags)];
    assert forall b :: 0 <= b < |pre| ==> reports[b] == pre[b];
    forall b | 0 <= b < |reports| && Selected(normalize, files, roots, normalize(reports[b].uri))
      ensures IndexOfPath(g, normalize(reports[b].uri)).Some?
    {
      if b < |pre| {
        var i := IndexOfPath(g0, normalize(reports[b].uri)).value;
        assert g[i].path == normalize(reports[b].uri);
      } else {
        assert g[|g0|].path == normalize(last.uri);
      }
    }
  }

  lemma {:induction false} GroupRawInv(normalize: string -> string, files: seq<string>, roots: seq<string>, reports: seq<Report>)
    ensures RawInv(normalize, files, roots, reports, GroupRaw(normalize, files, roots, reports))
  {
    if |reports| > 0 {
      var pre := reports[..|reports| - 1];
      var last := reports[|reports| - 1];
      assert reports == pre + [last];
      var g0 := GroupRaw(normalize, files, roots, pre);
      GroupRawInv(normalize, files, roots, pre);
      var p := normalize(last.uri);
      if !Selected(normalize, files, roots, p) {
        StepSkip(normalize, files, roots, pre, last, g0);
      } else {
        match IndexOfPath(g0, p)
        case Some(i0) => StepMerge(normalize, files, roots, pre, last, g0, i0);
        case None => StepAppend(normalize, files, roots, pre, last, g0);
      }
    }
  }

  /** A group that keeps at least one present diagnostic. */
  predicate Kept(grp: Group<Option<Diagnostic>>)
  {
    |Present(grp.items)| > 0
  }

  /** A group with only its present diagnostics. */
  function Pruned(grp: Group<Option<Diagnostic>>): Group<Diagnostic>
  {
    Group(grp.path, Present(grp.items))
  }

  /** The second loop of `collectDiagnostics`: each group keeps only the
      diagnostics that are present, and a group left empty is deleted. */
  function Prune(g: seq<Group<Option<Diagnostic>>>): (r: seq<Group<Diagnostic>>)
    ensures |r| <= |g|
    ensures forall i :: 0 <= i < |r| ==> |r[i].items| > 0
  {
    if |g| == 0 then []
    else
      var last := g[|g| - 1];
      Prune(g[..|g| - 1]) + (if Kept(last) then [Pruned(last)] else [])
  }

  /** Pruning groups with distinct paths: every pruned group is the pruned
      form of the group of `g` with its path and is not empty; every kept
      group of `g` survives. */
  lemma {:induction false} PruneMembers(g: seq<Group<Option<Diagnostic>>>)
    requires DistinctPaths(g)
    ensures forall x :: x in Prune(g) ==>
      && IndexOfPath(g, x.path).Some?
      && x == Pruned(g[IndexOfPath(g, x.path).value])
      && |x.items| > 0
    ensures forall j :: 0 <= j < |g| && Kept(g[j]) ==> Pruned(g[j]) in Prune(g)
  {
    if |g| > 0 {
      var pre := g[..|g| - 1];
      var last := g[|g| - 1];
      assert forall j :: 0 <= j < |pre| ==> pre[j] == g[j];
      PruneMembers(pre);
      forall x | x in Prune(g)
        ensures IndexOfPath(g, x.path).Some? && x == Pruned(g[IndexOfPath(g, x.path).value]) && |x.items| > 0
      {
        if x !in Prune(pre) {
          assert x == Pruned(last);
        } else {
          var k := IndexOfPath(pre, x.path).value;
          assert pre[k].path != last.path;
        }
      }
    }
  }

  /** Pruning keeps groups in first-seen order. */
  lemma {:induction false} PruneOrdered(normalize: string -> string, reports: seq<Report>, g: seq<Group<Option<Diagnostic>>>)
    requires FirstSeenOrder(normalize, reports, g)
    ensures FirstSeenOrder(normalize, reports, Prune(g))
  {
    if |g| > 0 {
      var pre := g[..|g| - 1];
      var last := g[|g| - 1];
      assert forall j :: 0 <= j < |pre| ==> pre[j] == g[j];
      PruneOrdered(normalize, reports, pre);
      if Kept(last) {
        var r0 := Prune(pre);
        var r := r0 + [Pruned(last)];
        FirstSeenOrderIsDistinct(normalize, reports, pre);
        PruneMembers(pre);
        forall i | 0 <= i < |r0|
          ensures FirstIndex(normalize, reports, r0[i].path) < FirstIndex(normalize, reports, last.path)
        {
          assert r0[i] in r0;
        }
        forall i, j | 0 <= i < j < |r|
          ensures FirstIndex(normalize, reports, r[i].path) < FirstIndex(normalize, reports, r[j].path)
        {
          assert r[i] == r0[i];
          if j < |r0| {
            assert r[j] == r0[j];
          }
        }
      }
    }
  }

  /** `collectDiagnostics(files, roots)` over the registry `reports`: one
      group per selected path that has a present diagnostic, holding exactly
      the present diagnostics the registry reports for it, in registry order,
      the groups in the order their paths first occur. */
  function CollectDiagnostics(normalize: string -> string, files: seq<string>, roots: seq<string>, reports: seq<Report>)
    : (r: seq<Group<Diagnostic>>)
    ensures DistinctPaths(r)
    ensures forall i :: 0 <= i < |r| ==>
      && Selected(normalize, files, roots, r[i].path)
      && r[i].items == Present(Gathered(normalize, reports, r[i].path))
      && |r[i].items| > 0
    ensures forall b :: 0 <= b < |reports| ==>
      var p := normalize(reports[b].uri);
      Selected(normalize, files, roots, p) && |Present(Gathered(normalize, reports, p))| > 0 ==>
        exists i :: 0 <= i < |r| && r[i].path == p
    ensures FirstSeenOrder(normalize, reports, r)
  {
    var raw := GroupRaw(normalize, files, roots, reports);
    GroupRawInv(normalize, files, roots, reports);
    PrunedGroups(normalize, files, roots, reports, raw);
    Prune(raw)
  }

  /** Pruning keeps what the invariant of the first loop says. */
  lemma {:induction false} PrunedGroups(normalize: string -> string, files: seq<string>, roots: seq<string>, reports: seq<Report>,
                     raw: seq<Group<Option<Diagnostic>>>)
    requires RawInv(normalize, files, roots, reports, raw)
    ensures var r := Prune(raw);
      && DistinctPaths(r)
      && (forall i :: 0 <= i < |r| ==>
            && Selected(normalize, files, roots, r[i].path)
            && r[i].items == Present(Gathered(normalize, reports, r[i].path))
            && |r[i].items| > 0)
      && (forall b :: 0 <= b < |reports| ==>
            var p := normalize(reports[b].uri);
            Selected(normalize, files, roots, p) && |Present(Gathered(normalize, reports, p))| > 0 ==>
              exists i :: 0 <= i < |r| && r[i].path == p)
      && FirstSeenOrder(normalize, reports, r)
  {
    var r := Prune(raw);
    FirstSeenOrderIsDistinct(normalize, reports, raw);
    PruneMembers(raw);
    PruneOrdered(normalize, reports, raw);
    FirstSeenOrderIsDistinct(normalize, reports, r);
    forall i | 0 <= i < |r|
      ensures Selected(normalize, files, roots, r[i].path)
      ensures r[i].items == Present(Gathered(normalize, reports, r[i].path))
    {
      assert r[i] in r;
    }
    forall b | 0 <= b < |reports| && Selected(normalize, files, roots, normalize(reports[b].uri))
                && |Present(Gathered(normalize, reports, normalize(reports[b].uri)))| > 0
      ensures exists i :: 0 <= i < |r| && r[i].path == normalize(reports[b].uri)
    {
      var j := IndexOfPath(raw, normalize(reports[b].uri)).value;
      assert Kept(raw[j]);
      var i :| 0 <= i < |r| && r[i] == Pruned(raw[j]);
    }
  }

  const NoDiagnosticsNotice: string := "_No diagnostics for the selected items._"

  /** The lines of one file's group: its heading, one bullet per
      diagnostic, and a blank line. */
  function GroupLines(asRelativePath: string -> string, g: Group<Diagnostic>): (r: seq<string>)
    ensures |r| == |g.items| + 2
    ensures r[0] == "### " + asRelativePath(g.path) && r[|r| - 1] == ""
    ensures forall k :: 0 <= k < |g.items| ==> r[k + 1] == DiagnosticLine(g.items[k])
  {
    var bullets := Map(DiagnosticLine, g.items);
    Bracketed("### " + asRelativePath(g.path), bullets, "");
    ["### " + asRelativePath(g.path)] + bullets + [""]
  }

  /** The number of lines the groups take. */
  function GroupLineCount(byFile: seq<Group<Diagnostic>>): nat
  {
    if |byFile| == 0 then 0 else |byFile[0].items| + 2 + GroupLineCount(byFile[1..])
  }

  /** The lines of every group, one group after the other. */
  function GroupsLines(asRelativePath: string -> string, byFile: seq<Group<Diagnostic>>): (r: seq<string>)
    ensures |r| == GroupLineCount(byFile)
  {
    if |byFile| == 0 then []
    else GroupLines(asRelativePath, byFile[0]) + GroupsLines(asRelativePath, byFile[1..])
  }

  /** The line at which group `k` starts: the lines of the groups before it. */
  function GroupStart(byFile: seq<Group<Diagnostic>>, k: nat): nat
    requires k <= |byFile|
  {
    if k == 0 then 0 else |byFile[0].items| + 2 + GroupStart(byFile[1..], k - 1)
  }

  /** `GroupLines` as a value, to hand to the sequence helpers. */
  function GroupLinesOf(asRelativePath: string -> string): Group<Diagnostic> -> seq<string>
  {
    g => GroupLines(asRelativePath, g)
  }

  /** The lines of group `k` come right after those of the groups before
      it, in the order of `byFile`. */
  lemma {:induction false} GroupAt(asRelativePath: string -> string, byFile: seq<Group<Diagnostic>>, k: nat)
    requires k < |byFile|
    ensures PieceAt(GroupsLines(asRelativePath, byFile), GroupStart(byFile, k), GroupLines(asRelativePath, byFile[k]))
  {
    GroupsLinesFlatMap(asRelativePath, byFile);
    GroupStartIsPieceStart(asRelativePath, byFile, k);
    FlatMapAt(GroupLinesOf(asRelativePath), byFile, k);
  }

  lemma {:induction false} GroupsLinesFlatMap(asRelativePath: string -> string, byFile: seq<Group<Diagnostic>>)
    ensures GroupsLines(asRelativePath, byFile) == FlatMap(GroupLinesOf(asRelativePath), byFile)
  {
    if |byFile| > 0 {
      GroupsLinesFlatMap(asRelativePath, byFile[1..]);
    }
  }

  lemma {:induction false} GroupStartIsPieceStart(asRelativePath: string -> string, byFile: seq<Group<Diagnostic>>, k: nat)
    requires k <= |byFile|
    ensures GroupStart(byFile, k) == PieceStart(GroupLinesOf(asRelativePath), byFile, k)
  {
    if k > 0 {
      GroupStartIsPieceStart(asRelativePath, byFile[1..], k - 1);
      assert |GroupLinesOf(asRelativePath)(byFile[0])| == |byFile[0].items| + 2;
    }
  }

  /** The groups' lines end with the last group's. */
  lemma {:induction false} GroupsLinesEnd(byFile: seq<Group<Diagnostic>>)
    ensures GroupStart(byFile, |byFile|) == GroupLineCount(byFile)
  {
    if |byFile| > 0 {
      GroupsLinesEnd(byFile[1..]);
    }
  }

  /** Every group's heading and every one of its diagnostics has its line,
      and no line is the notice of an empty section. */
  lemma {:induction false} GroupsLinesContents(asRelativePath: string -> string, byFile: seq<Group<Diagnostic>>)
    ensures var r := GroupsLines(asRelativePath, byFile);
      && (forall i :: 0 <= i < |byFile| ==> "### " + asRelativePath(byFile[i].path) in r)
      && (forall i, k :: 0 <= i < |byFile| && 0 <= k < |byFile[i].items| ==> DiagnosticLine(byFile[i].items[k]) in r)
      && (forall l :: l in r ==> l == "" || l[0] == '#' || l[0] == '-')
  {
    GroupsLinesHeadings(asRelativePath, byFile);
    GroupsLinesBullets(asRelativePath, byFile);
    GroupsLinesShape(asRelativePath, byFile);
  }

  lemma {:induction false} GroupsLinesHeadings(asRelativePath: string -> string, byFile: seq<Group<Diagnostic>>)
    ensures forall i :: 0 <= i < |byFile| ==> "### " + asRelativePath(byFile[i].path) in GroupsLines(asRelativePath, byFile)
  {
    if |byFile| > 0 {
      var head := GroupLines(asRelativePath, byFile[0]);
      var rest := GroupsLines(asRelativePath, byFile[1..]);
      assert GroupsLines(asRelativePath, byFile) == head + rest;
      GroupsLinesHeadings(asRelativePath, byFile[1..]);
      forall i | 0 <= i < |byFile| ensures "### " + asRelativePath(byFile[i].path) in head + rest {
        if i == 0 {
          assert head[0] in head;
        } else {
          assert byFile[i] == byFile[1..][i - 1];
        }
      }
    }
  }

  lemma {:induction false} GroupsLinesBullets(asRelativePath: string -> string, byFile: seq<Group<Diagnostic>>)
    ensures forall i, k :: 0 <= i < |byFile| && 0 <= k < |byFile[i].items| ==>
      DiagnosticLine(byFile[i].items[k]) in GroupsLines(asRelativePath, byFile)
  {
    if |byFile| > 0 {
      var head := GroupLines(asRelativePath, byFile[0]);
      var rest := GroupsLines(asRelativePath, byFile[1..]);
      assert GroupsLines(asRelativePath, byFile) == head + rest;
      GroupsLinesBullets(asRelativePath, byFile[1..]);
      forall i, k | 0 <= i < |byFile| && 0 <= k < |byFile[i].items|
        ensures DiagnosticLine(byFile[i].items[k]) in head + rest
      {
        if i == 0 {
          assert head[k + 1] in head;
        } else {
          assert byFile[i] == byFile[1..][i - 1];
        }
      }
    }
  }

  /** A bullet starts with its dash. */
  lemma {:induction false} DiagnosticLineStartsWithDash(d: Diagnostic)
    ensures DiagnosticLine(d)[0] == '-'
  {
    var head := "- (" + SeverityLabel(d.severity) + ") " + Position(d.line, d.character);
    assert head <= DiagnosticLine(d);
    assert head[0] == '-';
  }

  lemma {:induction false} GroupsLinesShape(asRelativePath: string -> string, byFile: seq<Group<Diagnostic>>)
    ensures forall l :: l in GroupsLines(asRelativePath, byFile) ==> l == "" || l[0] == '#' || l[0] == '-'
  {
    if |byFile| > 0 {
      var head := GroupLines(asRelativePath, byFile[0]);
      var rest := GroupsLines(asRelativePath, byFile[1..]);
      assert GroupsLines(asRelativePath, byFile) == head + rest;
      GroupsLinesShape(asRelativePath, byFile[1..]);
      GroupLinesShape(asRelativePath, byFile[0]);
    }
  }

  /** A group's lines are its heading, its bullets and a blank line. */
  lemma {:induction false} GroupLinesShape(asRelativePath: string -> string, g: Group<Diagnostic>)
    ensures forall l :: l in GroupLines(asRelativePath, g) ==> l == "" || l[0] == '#' || l[0] == '-'
  {
    var lines := GroupLines(asRelativePath, g);
    forall l | l in lines ensures l == "" || l[0] == '#' || l[0] == '-' {
      var k :| 0 <= k < |lines| && lines[k] == l;
      if 0 < k < |lines| - 1 {
        DiagnosticLineStartsWithDash(g.items[k - 1]);
      }
    }
  }

  /** The lines of `renderDiagnosticsSection`, before joining. */
  function SectionLines(asRelativePath: string -> string, byFile: seq<Group<Diagnostic>>): (r: seq<string>)
    ensures |r| > 0 && r[0] == "## Diagnostics"
    ensures |byFile| == 0 ==> r == ["## Diagnostics", NoDiagnosticsNotice, ""]
    ensures |byFile| > 0 ==> |r| == 1 + GroupLineCount(byFile) && NoDiagnosticsNotice !in r
    ensures |byFile| > 0 ==> r[1..] == GroupsLines(asRelativePath, byFile)
  {
    if |byFile| == 0 then ["## Diagnostics", NoDiagnosticsNotice, ""]
    else
      var lines := GroupsLines(asRelativePath, byFile);
      GroupsLinesContents(asRelativePath, byFile);
      NoticeIsNoGroupLine(lines);
      ["## Diagnostics"] + lines
  }

  lemma {:induction false} NoticeIsNoGroupLine(lines: seq<string>)
    requires forall l :: l in lines ==> l == "" || l[0] == '#' || l[0] == '-'
    ensures NoDiagnosticsNotice !in lines
  {
    assert NoDiagnosticsNotice[0] == '_';
  }

  lemma {:induction false} EmptySectionText()
    ensures Join(["## Diagnostics", NoDiagnosticsNotice, ""], "\n") == "## Diagnostics\n" + NoDiagnosticsNotice + "\n"
  {
    var xs := ["## Diagnostics", NoDiagnosticsNotice, ""];
    assert xs[1..] == [NoDiagnosticsNotice, ""] && xs[1..][1..] == [""];
  }

  /** The section's text for the grouped diagnostics `byFile`: the heading,
      then either the notice or every group's lines, one per line. */
  function SectionText(asRelativePath: string -> string, byFile: seq<Group<Diagnostic>>): (r: string)
    ensures "## Diagnostics" <= r
    ensures byFile == [] ==> r == "## Diagnostics\n" + NoDiagnosticsNotice + "\n"
    ensures byFile != [] ==> r == "## Diagnostics\n" + Join(GroupsLines(asRelativePath, byFile), "\n")
  {
    SectionJoin(asRelativePath, byFile);
    Join(SectionLines(asRelativePath, byFile), "\n")
  }

  lemma {:induction false} SectionJoin(asRelativePath: string -> string, byFile: seq<Group<Diagnostic>>)
    ensures var r := Join(SectionLines(asRelativePath, byFile), "\n");
      && (byFile == [] ==> r == "## Diagnostics\n" + NoDiagnosticsNotice + "\n")
      && (byFile != [] ==> r == "## Diagnostics\n" + Join(GroupsLines(asRelativePath, byFile), "\n"))
  {
    var lines := SectionLines(asRelativePath, byFile);
    if byFile == [] {
      EmptySectionText();
    } else {
      assert |lines| > 1;
      JoinTail(lines, "\n");
    }
  }

  /** `renderDiagnosticsSection(files, roots)`. */
  function RenderDiagnosticsSection(normalize: string -> string, asRelativePath: string -> string,
                                    files: seq<string>, roots: seq<string>, reports: seq<Report>): (r: string)
    ensures "## Diagnostics" <= r
    ensures CollectDiagnostics(normalize, files, roots, reports) == [] ==>
      r == "## Diagnostics\n" + NoDiagnosticsNotice + "\n"
    ensures var byFile := CollectDiagnostics(normalize, files, roots, reports);
      byFile != [] ==> r == "## Diagnostics\n" + Join(GroupsLines(asRelativePath, byFile), "\n")
  {
    SectionText(asRelativePath, CollectDiagnostics(normalize, files, roots, reports))
  }
}
