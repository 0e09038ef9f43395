/** One file's block in the Files section (`formatFileContent`): the
    relative path, a fence tagged with the file's extension, and the text,
    cut down to a head and a tail around a marker when it is too large.

    Text is a sequence of UTF-16 code units, one `char` each, as JavaScript
    strings are; `slice` counts code units while the size guard counts UTF-8
    bytes. */
module FileFormat {
  import opened Wrappers
  import opened Strings
  import opened FileSystem
  import opened Seqs

  /** `MAX_BYTES`. */
  const MaxBytes: nat := 700000
  /** `MAX_BYTES / 2`, the length of the kept head and of the kept tail. */
  const Half: nat := 350000
  const TruncationMarker: string := "\n\n<<TRUNCATED DUE TO SIZE>>\n\n"

  function Min(a: nat, b: nat): nat { if a <= b then a else b }
  function Max(a: int, b: int): int { if a >= b then a else b }

  /** The UTF-8 width of one code unit of the Basic Multilingual Plane. */
  function Utf8Width(c: char): nat
  {
    if c as int < 0x80 then 1 else if c as int < 0x800 then 2 else 3
  }

  /** `Buffer.byteLength(s, 'utf8')`. */
  function Utf8Length(s: string): (n: nat)
    ensures |s| <= n <= 3 * |s|
  {
    if |s| == 0 then 0 else Utf8Width(s[0]) + Utf8Length(s[1..])
  }

  /** `s.slice(0, n)`: at most `n` leading code units. */
  function SliceHead(s: string, n: nat): (r: string)
    ensures r <= s && |r| == Min(n, |s|)
  {
    s[..Min(n, |s|)]
  }

  /** `s.slice(-n)` for `n > 0`: at most `n` trailing code units. A string
      shorter than `n` is returned whole. */
  function SliceLast(s: string, n: nat): (r: string)
    ensures |r| == Min(n, |s|) && r == s[|s| - |r|..]
  {
    s[Max(|s| - n, 0)..]
  }

  /** The size guard of `formatFileContent` as written: over `MaxBytes`
      UTF-8 bytes, the text becomes its first `Half` code units, the marker
      and its last `Half` code units. */
  function TruncateAsWritten(content: string): (r: string)
    ensures Utf8Length(content) <= MaxBytes ==> r == content
    ensures Utf8Length(content) > MaxBytes ==>
      var n := Min(Half, |content|);
      && |r| == n + |TruncationMarker| + n
      && r[..n] == content[..n]
      && r[n..n + |TruncationMarker|] == TruncationMarker
      && r[n + |TruncationMarker|..] == content[|content| - n..]
  {
    if Utf8Length(content) > MaxBytes then
      var head := SliceHead(content, Half);
      var tail := SliceLast(content, Half);
      head + TruncationMarker + tail
    else content
  }

  lemma {:induction false} UniformUtf8Length(s: string, c: char)
    requires forall i :: 0 <= i < |s| ==> s[i] == c
    ensures Utf8Length(s) == |s| * Utf8Width(c)
  {
    if |s| > 0 {
      UniformUtf8Length(s[1..], c);
    }
  }

  /** Text of fewer than `MaxBytes` code units but more than `MaxBytes`
      bytes is not shortened by the guard as written: both slices reach past
      the middle, so the kept head and tail overlap. 250,000 copies of `€`
      (three bytes each) come out twice, on both sides of the marker. */
  lemma {:induction false} TruncationAsWrittenDuplicates()
    ensures var content := seq(250000, _ => '€');
      && Utf8Length(content) == 750000
      && TruncateAsWritten(content) == content + TruncationMarker + content
      && |TruncateAsWritten(content)| > |content| + |TruncationMarker|
  {
    var content := seq(250000, _ => '€');
    UniformUtf8Length(content, '€');
    assert SliceHead(content, Half) == content;
    assert SliceLast(content, Half) == content;
  }

  /** The size guard with the overlap removed: the tail starts no earlier
      than the head ends, so no code unit of the text is emitted twice. It
      agrees with the guard as written on every text of at least `MaxBytes`
      code units (`TruncateAgreesOnLongText`). */
  function Truncate(content: string): (r: string)
    ensures Utf8Length(content) <= MaxBytes ==> r == content
    ensures Utf8Length(content) > MaxBytes ==>
      var h := Min(Half, |content|);
      var k := Min(Half, |content| - h);
      && h + k == Min(|content|, MaxBytes)
      && |r| == h + |TruncationMarker| + k
      && r[..h] == content[..h]
      && r[h..h + |TruncationMarker|] == TruncationMarker
      && r[h + |TruncationMarker|..] == content[|content| - k..]
    ensures |r| <= |content| + |TruncationMarker|
  {
    if Utf8Length(content) > MaxBytes then
      var h := Min(Half, |content|);
      var t := Max(|content| - Half, h);
      content[..h] + TruncationMarker + content[t..]
    else content
  }

  lemma {:induction false} TruncateAgreesOnLongText(content: string)
    requires |content| >= MaxBytes
    ensures Truncate(content) == TruncateAsWritten(content)
  {
  }

  /** The index of the last `.` in `s`, if any. */
  function LastDot(s: string): (r: Option<nat>)
    ensures r.Some? ==> r.value < |s| && s[r.value] == '.' && '.' !in s[r.value + 1..]
    ensures r.None? ==> '.' !in s
  {
    if |s| == 0 then None
    else if s[|s| - 1] == '.' then Some(|s| - 1)
    else
      var r := LastDot(s[..|s| - 1]);
      assert s == s[..|s| - 1] + [s[|s| - 1]];
      r
  }

  /** A `.` somewhere after the first character of `s`. */
  predicate HasInnerDot(s: string)
  {
    exists j :: 0 < j < |s| && s[j] == '.'
  }

  /** POSIX `path.extname`: from the last `.` of the basename to its end;
      empty when the basename has no `.`, when its only leading character is
      that `.` (`.bashrc`), or when it is `..`. */
  function ExtName(p: string): (ext: string)
    ensures ext == "" || (ext[0] == '.' && '.' !in ext[1..])
    ensures ext != "" ==> |ext| < |Basename(p)| && ext == Basename(p)[|Basename(p)| - |ext|..]
    ensures ext != "" <==> Basename(p) != ".." && HasInnerDot(Basename(p))
  {
    var base := Basename(p);
    if base == ".." then ""
    else
      match LastDot(base)
      case None => ""
      case Some(k) =>
        if k == 0 then
          assert !HasInnerDot(base) by {
            forall j | 0 < j < |base| ensures base[j] != '.' {
              assert base[j] in base[1..];
            }
          }
          ""
        else
          base[k..]
  }

  /** `s.replace('.', '')`: the first `.` removed. */
  function RemoveFirstDot(s: string): (r: string)
    ensures '.' !in s ==> r == s
    ensures |s| > 0 && s[0] == '.' ==> r == s[1..]
  {
    if |s| == 0 then ""
    else if s[0] == '.' then s[1..]
    else [s[0]] + RemoveFirstDot(s[1..])
  }

  /** The fence tag: the extension without its dot, or `text` when that
      leaves nothing. */
  function ExtTag(p: string): (tag: string)
    ensures tag != "" && '.' !in tag
    ensures ExtName(p) == "" || ExtName(p) == "." ==> tag == "text"
    ensures |ExtName(p)| > 1 ==> "." + tag == ExtName(p)
  {
    var ext := ExtName(p);
    var stripped := RemoveFirstDot(ext);
    assert |ext| > 0 ==> ext == [ext[0]] + ext[1..];
    if stripped == "" then "text" else stripped
  }

  /** What `fsp.readFile(path, 'utf-8')` yields on the model filesystem. */
  function ReadFile(fs: FS, path: string): ReadResult
  {
    if path !in fs then ReadError(Some("ENOENT: no such file or directory, open '" + path + "'"))
    else match fs[path]
      case File(read) => read
      case Directory(_) => ReadError(Some("EISDIR: illegal operation on a directory, read"))
      case Other => ReadError(None)
  }

  /** The text of a file, or the placeholder that replaces it when reading
      fails; a missing error message reads `unknown error`. */
  function ContentOf(read: ReadResult): (content: string)
    ensures read.Contents? ==> content == read.text
    ensures read.ReadError? ==>
      var opening := "<<Unable to read file: ";
      var reason := if read.message.Some? then read.message.value else "unknown error";
      && |content| == |opening| + |reason| + 2
      && content[..|opening|] == opening
      && content[|opening|..|content| - 2] == reason
      && content[|content| - 2..] == ">>"
  {
    match read
    case Contents(text) => text
    case ReadError(message) =>
      "<<Unable to read file: " + (match message case Some(m) => m case None => "unknown error") + ">>"
  }

  /** Where the three parts of `a + b + c` lie. */
  lemma {:induction false} Framed(a: string, b: string, c: string)
    ensures var s := a + b + c;
      && a <= s && |s| == |a| + |b| + |c|
      && s[|a|..|a| + |b|] == b && s[|s| - |c|..] == c
  {
    var s := a + b + c;
    assert s[|a|..|a| + |b|] == b;
    assert s[|s| - |c|..] == c;
  }

  /** The opening of a file block: the relative path and the tagged fence. */
  function BlockHeader(rel: string, filePath: string): string
  {
    rel + ":\n```" + ExtTag(filePath) + "\n"
  }

  /** `formatFileContent(filePath)`: the block is the header, the text as
      the size guard leaves it (`TruncateAsWritten`, overlap included) and
      the closing fence, and that text can be cut back out of it. */
  function FormatFileContent(fs: FS, asRelativePath: string -> string, filePath: string): (block: string)
    ensures var header := BlockHeader(asRelativePath(filePath), filePath);
      && header <= block
      && |block| >= |header| + 5
      && block[|block| - 5..] == "\n```\n"
      && block[|header|..|block| - 5] == TruncateAsWritten(ContentOf(ReadFile(fs, filePath)))
  {
    var header := BlockHeader(asRelativePath(filePath), filePath);
    var body := TruncateAsWritten(ContentOf(ReadFile(fs, filePath)));
    Framed(header, body, "\n```\n");
    header + body + "\n```\n"
  }

  /** The block with the corrected size guard. */
  function CorrectedFileContent(fs: FS, asRelativePath: string -> string, filePath: string): (block: string)
    ensures var header := BlockHeader(asRelativePath(filePath), filePath);
      && header <= block
      && |block| >= |header| + 5
      && block[|block| - 5..] == "\n```\n"
      && block[|header|..|block| - 5] == Truncate(ContentOf(ReadFile(fs, filePath)))
  {
    var header := BlockHeader(asRelativePath(filePath), filePath);
    var body := Truncate(ContentOf(ReadFile(fs, filePath)));
    Framed(header, body, "\n```\n");
    header + body + "\n```\n"
  }

  /** The two blocks differ only on text that the guard catches although it
      has fewer than `MaxBytes` code units. */
  lemma {:induction false} FileBlocksAgreeOutsideOverlap(fs: FS, asRelativePath: string -> string, filePath: string)
    requires var content := ContentOf(ReadFile(fs, filePath));
      Utf8Length(content) <= MaxBytes || |content| >= MaxBytes
    ensures FormatFileContent(fs, asRelativePath, filePath) == CorrectedFileContent(fs, asRelativePath, filePath)
  {
    var content := ContentOf(ReadFile(fs, filePath));
    if |content| >= MaxBytes {
      TruncateAgreesOnLongText(content);
    }
  }

  /** A readable file within the size limit is copied verbatim. */
  lemma {:induction false} SmallFileVerbatim(fs: FS, asRelativePath: string -> string, filePath: string, text: string)
    requires filePath in fs && fs[filePath] == File(Contents(text))
    requires Utf8Length(text) <= MaxBytes
    ensures FormatFileContent(fs, asRelativePath, filePath) ==
            BlockHeader(asRelativePath(filePath), filePath) + text + "\n```\n"
  {
  }

  /** `renderFilesSection(files)`: the heading, then one block per file in
      the order of `files`. */
  function RenderFilesSection(fs: FS, asRelativePath: string -> string, files: seq<string>): (r: string)
    ensures "## Files" <= r
  {
    var blocks := Map(p => FormatFileContent(fs, asRelativePath, p), files);
    Join(["## Files"] + blocks, "\n")
  }
}
