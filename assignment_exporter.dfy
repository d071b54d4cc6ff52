/**
 * The pure parts of the exporter: escaping a CSV field and a Markdown table
 * cell, choosing a timestamped file name, validating an assignment before
 * export, converting a single-pool result to the list-valued shape, and the
 * summary counts of the Markdown report.
 */
module AssignmentExporter {
  import opened Wrappers
  import opened People
  import opened LinkedMaps
  import opened JavaText
  import Engine = CodeReviewAssigner
  import Legacy = LegacyCodeReviewAssigner

  const CsvPrefix: string := "code_review_assignments"
  const MarkdownPrefix: string := "review_summary"

  // ---------------------------------------------------------------------------
  // CSV field escaping

  /** The field holds a comma, a line feed or a double quote. */
  predicate NeedsQuoting(s: string) {
    ',' in s || '\n' in s || '"' in s
  }

  /** Every double quote comes as a doubled pair, as inside an RFC 4180 quoted field. */
  predicate QuotesPaired(s: string)
    decreases |s|
  {
    if s == [] then true
    else if s[0] != '"' then QuotesPaired(s[1..])
    else |s| >= 2 && s[1] == '"' && QuotesPaired(s[2..])
  }

  /**
   * escapeCsv: null and "" become ""; a field needing quotes is wrapped in
   * double quotes with each inner quote doubled; any other field is unchanged.
   */
  function EscapeCsv(field: Option<string>): (r: string)
    ensures field.None? || field == Some([]) ==> r == []
    ensures field.Some? && !NeedsQuoting(field.value) ==> r == field.value
    ensures field.Some? && NeedsQuoting(field.value) ==>
      |r| >= 2 && r[0] == '"' && r[|r| - 1] == '"' && QuotesPaired(r[1..|r| - 1])
  {
    if field.None? || field.value == [] then []
    else if NeedsQuoting(field.value) then
      var body := ReplaceChar(field.value, '"', "\"\"");
      DoubledQuotesPaired(field.value);
      var r := "\"" + body + "\"";
      assert r[1..|r| - 1] == body;
      r
    else field.value
  }

  lemma {:induction false} DoubledQuotesPaired(s: string)
    ensures QuotesPaired(ReplaceChar(s, '"', "\"\""))
    decreases |s|
  {
    if s != [] {
      DoubledQuotesPaired(s[1..]);
      var tail := ReplaceChar(s[1..], '"', "\"\"");
      if s[0] == '"' {
        assert ReplaceChar(s, '"', "\"\"") == "\"\"" + tail;
        assert ("\"\"" + tail)[2..] == tail;
      } else {
        assert ReplaceChar(s, '"', "\"\"") == [s[0]] + tail;
        assert ([s[0]] + tail)[1..] == tail;
      }
    }
  }

  /** Reading the inside of a quoted field: each doubled quote stands for one quote. */
  function Undouble(s: string): string
    decreases |s|
  {
    if s == [] then []
    else if |s| >= 2 && s[0] == '"' && s[1] == '"' then "\"" + Undouble(s[2..])
    else [s[0]] + Undouble(s[1..])
  }

  /** How an RFC 4180 reader recovers a field's value from its text. */
  function UnquoteCsv(f: string): string {
    if |f| >= 2 && f[0] == '"' && f[|f| - 1] == '"' then Undouble(f[1..|f| - 1]) else f
  }

  lemma {:induction false} UndoubleDoubled(s: string)
    ensures Undouble(ReplaceChar(s, '"', "\"\"")) == s
    decreases |s|
  {
    if s != [] {
      UndoubleDoubled(s[1..]);
      var tail := ReplaceChar(s[1..], '"', "\"\"");
      if s[0] == '"' {
        assert ReplaceChar(s, '"', "\"\"") == "\"\"" + tail;
        assert ("\"\"" + tail)[2..] == tail;
      } else {
        assert ReplaceChar(s, '"', "\"\"") == [s[0]] + tail;
        assert ([s[0]] + tail)[1..] == tail;
      }
      assert s == [s[0]] + s[1..];
    }
  }

  /** Escaping then reading back gives the original field, for every field. */
  lemma EscapeCsvRoundTrip(x: string)
    ensures UnquoteCsv(EscapeCsv(Some(x))) == x
  {
    if x != [] && NeedsQuoting(x) {
      var r := EscapeCsv(Some(x));
      assert r[1..|r| - 1] == ReplaceChar(x, '"', "\"\"");
      UndoubleDoubled(x);
    } else if x != [] {
      assert x[0] != '"';
    }
  }

  // ---------------------------------------------------------------------------
  // Markdown cell escaping

  /** Every pipe is directly preceded by a backslash, so none splits a table row. */
  predicate PipesEscaped(s: string) {
    forall i :: 0 <= i < |s| && s[i] == '|' ==> i > 0 && s[i - 1] == '\\'
  }

  /** escapeMarkdown: null becomes ""; each `|` becomes `\|`, then each line feed a space. */
  function EscapeMarkdown(text: Option<string>): (r: string)
    ensures text.None? ==> r == []
    ensures '\n' !in r
    ensures text.Some? && '|' !in text.value && '\n' !in text.value ==> r == text.value
  {
    if text.None? then [] else ReplaceChar(ReplaceChar(text.value, '|', "\\|"), '\n', " ")
  }

  lemma PipesEscapedAppend(a: string, b: string)
    requires PipesEscaped(a) && PipesEscaped(b)
    ensures PipesEscaped(a + b)
  {
    forall i | 0 <= i < |a + b| && (a + b)[i] == '|' ensures i > 0 && (a + b)[i - 1] == '\\' {
      if i >= |a| {
        assert b[i - |a|] == '|';
      }
    }
  }

  lemma {:induction false} PipesEscapedReplace(s: string)
    ensures PipesEscaped(ReplaceChar(s, '|', "\\|"))
    decreases |s|
  {
    if s != [] {
      PipesEscapedReplace(s[1..]);
      var head := if s[0] == '|' then "\\|" else [s[0]];
      assert PipesEscaped(head);
      PipesEscapedAppend(head, ReplaceChar(s[1..], '|', "\\|"));
    }
  }

  /** Replacing one char by another keeps the length and touches nothing else. */
  lemma {:induction false} ReplaceCharByChar(s: string, c: char, d: char)
    ensures |ReplaceChar(s, c, [d])| == |s|
    ensures forall i :: 0 <= i < |s| ==> ReplaceChar(s, c, [d])[i] == if s[i] == c then d else s[i]
    decreases |s|
  {
    if s != [] {
      ReplaceCharByChar(s[1..], c, d);
    }
  }

  /** Every pipe of the escaped text is preceded by a backslash. */
  lemma EscapeMarkdownPipes(t: string)
    ensures PipesEscaped(EscapeMarkdown(Some(t)))
  {
    var mid := ReplaceChar(t, '|', "\\|");
    PipesEscapedReplace(t);
    ReplaceCharByChar(mid, '\n', ' ');
  }

  /** What escapeMarkdown makes of one char of the text. */
  function EscapedCellChar(x: char): string {
    if x == '|' then "\\|" else if x == '\n' then " " else [x]
  }

  /** The text escaped char by char: each char's image, in order. */
  function EscapedCell(t: string): string {
    if t == [] then [] else EscapedCell(t[..|t| - 1]) + EscapedCellChar(t[|t| - 1])
  }

  /** Escaping a concatenation escapes each part. */
  lemma EscapeMarkdownAppend(a: string, b: string)
    ensures EscapeMarkdown(Some(a + b)) == EscapeMarkdown(Some(a)) + EscapeMarkdown(Some(b))
  {
    ReplaceCharAppend(a, b, '|', "\\|");
    ReplaceCharAppend(ReplaceChar(a, '|', "\\|"), ReplaceChar(b, '|', "\\|"), '\n', " ");
  }

  /** One char: a pipe becomes `\|`, a line feed a space, anything else stays. */
  lemma EscapeMarkdownSingle(x: char)
    ensures EscapeMarkdown(Some([x])) == EscapedCellChar(x)
  {
    ReplaceCharSingle(x, '|', "\\|");
    if x == '|' {
      var bar: string := "\\|";
      assert bar == ['\\'] + ['|'];
      ReplaceCharAppend(['\\'], ['|'], '\n', " ");
      ReplaceCharSingle('\\', '\n', " ");
      ReplaceCharSingle('|', '\n', " ");
    } else {
      ReplaceCharSingle(x, '\n', " ");
    }
  }

  /** escapeMarkdown keeps every char of the text, in order, except that pipes and line feeds are rewritten. */
  lemma {:induction false} EscapeMarkdownByChar(t: string)
    ensures EscapeMarkdown(Some(t)) == EscapedCell(t)
    decreases |t|
  {
    if t != [] {
      var init, x := t[..|t| - 1], t[|t| - 1];
      assert t == init + [x];
      EscapeMarkdownByChar(init);
      EscapeMarkdownAppend(init, [x]);
      EscapeMarkdownSingle(x);
    }
  }

  // ---------------------------------------------------------------------------
  // Timestamped file name

  /** File.separator on a POSIX system. */
  const Separator: char := '/'

  predicate EndsWith(s: string, c: char) {
    s != [] && s[|s| - 1] == c
  }

  /** `basePath`, with null or blank read as the current directory ".". */
  function EffectiveBase(basePath: Option<string>): (b: string)
    ensures b != []
  {
    if basePath.None? || IsBlank(basePath.value) then "." else basePath.value
  }

  /**
   * The path counts as a directory when it ends with a separator, names an
   * existing directory, or holds no '.' anywhere and is not an existing file.
   */
  predicate TreatAsDirectory(path: string, existingDirectory: bool, existingFile: bool) {
    EndsWith(path, Separator) || EndsWith(path, '/') || existingDirectory ||
    ('.' !in path && !existingFile)
  }

  /** File.getName for a path that does not end with a separator: its last component. */
  function FileName(path: string): (name: string)
    ensures |name| <= |path| && name == path[|path| - |name|..]
    ensures |name| == |path| - LastIndexOf(path, Separator) - 1
    ensures Separator !in name
  {
    path[LastIndexOf(path, Separator) + 1..]
  }

  /**
   * The part of the new name before `_timestamp.ext`: the default prefix for a
   * directory; for a file, its name without its last extension when that
   * extension is `extension` up to case and the dot is neither first nor last,
   * and its whole name otherwise.
   */
  function Stem(path: string, existingDirectory: bool, existingFile: bool, extension: string, defaultPrefix: string): (stem: string)
    ensures TreatAsDirectory(path, existingDirectory, existingFile) ==> stem == defaultPrefix
    ensures !TreatAsDirectory(path, existingDirectory, existingFile) ==>
      var name := FileName(path);
      var d := LastIndexOf(name, '.');
      |stem| <= |name| && name[..|stem|] == stem &&
      (stem != name <==> 0 < d < |name| - 1 && EqualsIgnoreCaseAscii(name[d + 1..], extension)) &&
      (stem != name ==> |stem| == d && name[d] == '.')
  {
    if TreatAsDirectory(path, existingDirectory, existingFile) then defaultPrefix
    else
      var name := FileName(path);
      var dot := LastIndexOf(name, '.');
      if 0 < dot < |name| - 1 && EqualsIgnoreCaseAscii(name[dot + 1..], extension) then name[..dot]
      else name
  }

  /**
   * The file name generateTimestampedPath produces. The parent directory and
   * the absolute path it is joined to are file-system queries and are not part
   * of this model; `existingDirectory` and `existingFile` stand for
   * File.isDirectory()/exists() and File.isFile().
   */
  function TimestampedFileName(basePath: Option<string>, existingDirectory: bool, existingFile: bool,
                               timestamp: string, extension: string, defaultPrefix: string): (name: string)
    ensures TreatAsDirectory(EffectiveBase(basePath), existingDirectory, existingFile) ==>
      name == Formatted(defaultPrefix, timestamp, extension)
  {
    Formatted(Stem(EffectiveBase(basePath), existingDirectory, existingFile, extension, defaultPrefix), timestamp, extension)
  }

  /** exportToCsv's file name: a `.csv` name with the CSV default prefix. */
  function CsvFileName(basePath: Option<string>, existingDirectory: bool, existingFile: bool, timestamp: string): (name: string)
    ensures TreatAsDirectory(EffectiveBase(basePath), existingDirectory, existingFile) ==>
      name == Formatted(CsvPrefix, timestamp, "csv")
  {
    TimestampedFileName(basePath, existingDirectory, existingFile, timestamp, "csv", CsvPrefix)
  }

  /** exportToMarkdown's file name: a `.md` name with the Markdown default prefix. */
  function MarkdownFileName(basePath: Option<string>, existingDirectory: bool, existingFile: bool, timestamp: string): (name: string)
    ensures TreatAsDirectory(EffectiveBase(basePath), existingDirectory, existingFile) ==>
      name == Formatted(MarkdownPrefix, timestamp, "md")
  {
    TimestampedFileName(basePath, existingDirectory, existingFile, timestamp, "md", MarkdownPrefix)
  }

  /** The documented directory use: a path ending with a separator gets the default prefix. */
  lemma DirectoryExportNames(dir: string, timestamp: string)
    requires EndsWith(dir, Separator)
    ensures CsvFileName(Some(dir), false, false, timestamp) == Formatted(CsvPrefix, timestamp, "csv")
    ensures MarkdownFileName(Some(dir), false, false, timestamp) == Formatted(MarkdownPrefix, timestamp, "md")
  {
    EffectiveBaseOf(dir, |dir| - 1);
  }

  /** The documented file use: `b.csv` and `b.md` keep `b` and gain the timestamp. */
  lemma FileExportNames(dir: string, b: string, timestamp: string)
    requires dir == [] || EndsWith(dir, Separator)
    requires b != [] && Separator !in b
    ensures CsvFileName(Some(dir + (b + "." + "csv")), false, false, timestamp) == Formatted(b, timestamp, "csv")
    ensures MarkdownFileName(Some(dir + (b + "." + "md")), false, false, timestamp) == Formatted(b, timestamp, "md")
  {
    ReplacesMatchingExtension(dir, b, "csv", timestamp, "csv", CsvPrefix);
    ReplacesMatchingExtension(dir, b, "md", timestamp, "md", MarkdownPrefix);
  }

  /** String.format("%s_%s.%s", stem, timestamp, extension) */
  function Formatted(stem: string, timestamp: string, extension: string): string {
    stem + "_" + timestamp + "." + extension
  }

  /** Every name built this way ends with `_timestamp.extension`, whatever the stem. */
  lemma FormattedTail(stem: string, timestamp: string, extension: string)
    ensures var tail := "_" + timestamp + "." + extension;
      var name := Formatted(stem, timestamp, extension);
      |tail| <= |name| && name[|name| - |tail|..] == tail
  {
    var tail := "_" + timestamp + "." + extension;
    assert Formatted(stem, timestamp, extension) == stem + tail;
  }

  /** The last occurrence of c is at k when s[k] is c and nothing after k is. */
  lemma LastIndexOfAt(s: string, c: char, k: int)
    requires -1 <= k < |s| && (k >= 0 ==> s[k] == c)
    requires forall j :: k < j < |s| ==> s[j] != c
    ensures LastIndexOf(s, c) == k
  {
  }

  /** A directory part ending with a separator, then a name: File.getName yields the name. */
  lemma FileNameAfterDirectory(dir: string, name: string)
    requires dir == [] || EndsWith(dir, Separator)
    requires Separator !in name
    ensures FileName(dir + name) == name
  {
    var path := dir + name;
    forall j | |dir| <= j < |path| ensures path[j] != Separator {
      assert path[j] == name[j - |dir|];
    }
    LastIndexOfAt(path, Separator, |dir| - 1);
    assert path[|dir|..] == name;
  }

  /** A path is not blank once it holds a char above U+0020. */
  lemma NotBlank(s: string, k: nat)
    requires k < |s| && !IsTrimmable(s[k])
    ensures !IsBlank(s)
  {
  }

  /** `b.e` with no dot in `e`: the last dot separates `b` from `e`. */
  lemma SplitAtLastDot(b: string, e: string)
    requires '.' !in e
    ensures LastIndexOf(b + "." + e, '.') == |b|
    ensures (b + "." + e)[..|b|] == b && (b + "." + e)[|b| + 1..] == e
  {
    var dotE := ['.'] + e;
    var name := b + dotE;
    assert b + "." + e == name;
    forall j | |b| < j < |name| ensures name[j] != '.' {
      assert name[j] == dotE[j - |b|] == e[j - |b| - 1];
    }
    LastIndexOfAt(name, '.', |b|);
    assert name[..|b|] == b;
    assert name[|b| + 1..] == dotE[1..] == e;
  }

  /** A file path whose name's last extension matches keeps the name before that dot. */
  lemma StemOfMatchingFile(path: string, extension: string, defaultPrefix: string, d: int)
    requires !TreatAsDirectory(path, false, false)
    requires d == LastIndexOf(FileName(path), '.') && 0 < d < |FileName(path)| - 1
    requires EqualsIgnoreCaseAscii(FileName(path)[d + 1..], extension)
    ensures Stem(path, false, false, extension, defaultPrefix) == FileName(path)[..d]
  {
  }

  /** A non-blank path is used as given. */
  lemma EffectiveBaseOf(path: string, k: nat)
    requires k < |path| && !IsTrimmable(path[k])
    ensures EffectiveBase(Some(path)) == path
  {
    NotBlank(path, k);
  }

  /** A path holding a '.' whose last char is not a separator is not a directory when nothing exists there. */
  lemma NotDirectory(path: string, k: nat)
    requires k < |path| && path[k] == '.' && path[|path| - 1] != Separator
    ensures !TreatAsDirectory(path, false, false)
  {
    assert '.' in path;
  }

  lemma LastOfAppend(dir: string, leaf: string)
    requires leaf != [] && Separator !in leaf
    ensures (dir + leaf)[|dir + leaf| - 1] == leaf[|leaf| - 1] != Separator
  {
    assert leaf[|leaf| - 1] in leaf;
  }

  /**
   * A path made of a directory part ending with a separator and a last part
   * without one, holding a '.' somewhere: it is neither blank nor a directory
   * (when nothing exists there), and its file name is the last part.
   */
  lemma DottedFilePath(dir: string, leaf: string, k: nat)
    requires dir == [] || EndsWith(dir, Separator)
    requires leaf != [] && Separator !in leaf
    requires k < |dir + leaf| && (dir + leaf)[k] == '.'
    ensures EffectiveBase(Some(dir + leaf)) == dir + leaf
    ensures !TreatAsDirectory(dir + leaf, false, false)
    ensures FileName(dir + leaf) == leaf
  {
    var path := dir + leaf;
    EffectiveBaseOf(path, k);
    LastOfAppend(dir, leaf);
    NotDirectory(path, k);
    FileNameAfterDirectory(dir, leaf);
  }

  /** A name ending in `.ext`, `ext` matching up to case, has that extension replaced, not doubled. */
  lemma ReplacesMatchingExtension(dir: string, b: string, e: string, timestamp: string, extension: string, defaultPrefix: string)
    requires dir == [] || EndsWith(dir, Separator)
    requires b != [] && Separator !in b && Separator !in e && '.' !in e && e != []
    requires EqualsIgnoreCaseAscii(e, extension)
    ensures TimestampedFileName(Some(dir + (b + "." + e)), false, false, timestamp, extension, defaultPrefix)
         == Formatted(b, timestamp, extension)
  {
    var name := b + "." + e;
    assert (dir + name)[|dir| + |b|] == '.';
    assert Separator !in name;
    DottedFilePath(dir, name, |dir| + |b|);
    SplitAtLastDot(b, e);
    StemOfMatchingFile(dir + name, extension, defaultPrefix, |b|);
    assert Stem(dir + name, false, false, extension, defaultPrefix) == b;
  }

  /** A file path whose name has no dot keeps its whole name as the stem. */
  lemma StemOfPlainFile(path: string, extension: string, defaultPrefix: string)
    requires !TreatAsDirectory(path, false, false)
    requires LastIndexOf(FileName(path), '.') == -1
    ensures Stem(path, false, false, extension, defaultPrefix) == FileName(path)
  {
  }

  /**
   * A directory path with a '.' in some directory part and no extension in its
   * last part, such as "./exports", is taken for a file: the new name is built
   * from that last part instead of the default prefix.
   */
  lemma DottedDirectoryTakenForFile(dir: string, leaf: string, timestamp: string, extension: string, defaultPrefix: string)
    requires EndsWith(dir, Separator) && '.' in dir
    requires leaf != [] && Separator !in leaf && '.' !in leaf
    ensures TimestampedFileName(Some(dir + leaf), false, false, timestamp, extension, defaultPrefix)
         == Formatted(leaf, timestamp, extension)
    ensures TreatAsDirectoryIntended(dir + leaf, false, false)
  {
    var k :| 0 <= k < |dir| && dir[k] == '.';
    assert (dir + leaf)[k] == '.';
    DottedFilePath(dir, leaf, k);
    LastIndexOfAt(leaf, '.', -1);
    StemOfPlainFile(dir + leaf, extension, defaultPrefix);
  }

  /** The directory test the path-resolution comment describes: no extension in the last component. */
  predicate TreatAsDirectoryIntended(path: string, existingDirectory: bool, existingFile: bool) {
    EndsWith(path, Separator) || EndsWith(path, '/') || existingDirectory ||
    ('.' !in FileName(path) && !existingFile)
  }

  /** generateTimestampedPath's file name with the intended directory test. */
  function TimestampedFileNameIntended(basePath: Option<string>, existingDirectory: bool, existingFile: bool,
                                       timestamp: string, extension: string, defaultPrefix: string): (name: string)
    ensures var path := EffectiveBase(basePath);
      '.' !in FileName(path) && !existingFile ==> name == Formatted(defaultPrefix, timestamp, extension)
  {
    var path := EffectiveBase(basePath);
    var stem := if TreatAsDirectoryIntended(path, existingDirectory, existingFile) then defaultPrefix
      else Stem(path, false, existingFile, extension, defaultPrefix);
    Formatted(stem, timestamp, extension)
  }

  // ---------------------------------------------------------------------------
  // Validation before export

  /** An entry of a Java Map<Person, List<Person>>, where key and value may be null. */
  datatype RawEntry = RawEntry(key: Option<Person>, value: Option<seq<Person>>)

  type RawAssignment = Option<seq<RawEntry>>

  datatype ExportError =
    | NoData(format: string)
    | NullReviewer(format: string)
    | NullRevieweeList(format: string, reviewerId: string)

  predicate EntryPresent(e: RawEntry) {
    e.key.Some? && e.value.Some?
  }

  /** What validateAssignment accepts: a non-null, non-empty map without null keys or lists. */
  predicate Exportable(a: RawAssignment) {
    a.Some? && a.value != [] && forall i :: 0 <= i < |a.value| ==> EntryPresent(a.value[i])
  }

  /** Entry i is the first one with a null key or a null list. */
  predicate FirstNullAt(v: seq<RawEntry>, i: nat) {
    i < |v| && !EntryPresent(v[i]) && forall k :: 0 <= k < i ==> EntryPresent(v[k])
  }

  function ErrorFor(e: RawEntry, format: string): ExportError {
    if e.key.None? then NullReviewer(format) else NullRevieweeList(format, e.key.value.employeeId)
  }

  /**
   * validateAssignment: refuses a null or empty map, then reports the first
   * entry in iteration order whose key is null or, failing that, whose list is null.
   */
  method ValidateAssignment(assignment: RawAssignment, format: string) returns (r: Outcome<ExportError>)
    ensures assignment.None? || assignment == Some([]) ==> r == Fail(NoData(format))
    ensures r.Pass? <==> Exportable(assignment)
    ensures r.Fail? && assignment.Some? && assignment.value != [] ==>
      exists i: nat :: FirstNullAt(assignment.value, i) && r.error == ErrorFor(assignment.value[i], format)
  {
    if assignment.None? || assignment.value == [] {
      return Fail(NoData(format));
    }
    var entries := assignment.value;
    var i := 0;
    while i < |entries|
      invariant 0 <= i <= |entries|
      invariant forall k :: 0 <= k < i ==> EntryPresent(entries[k])
    {
      var entry := entries[i];
      if entry.key.None? {
        assert FirstNullAt(entries, i);
        return Fail(NullReviewer(format));
      }
      if entry.value.None? {
        assert FirstNullAt(entries, i);
        return Fail(NullRevieweeList(format, entry.key.value.employeeId));
      }
      i := i + 1;
    }
    return Pass;
  }

  /** A result map seen as a Java map: no key and no list is null. */
  function AsRaw(m: Assignment): RawAssignment {
    Some(seq(|m|, i requires 0 <= i < |m| => RawEntry(Some(m[i].key), Some(m[i].value))))
  }

  /** Every assignment the engine returns is accepted for export exactly when it is non-empty. */
  lemma ResultsExportable(m: Assignment)
    ensures Exportable(AsRaw(m)) <==> m != []
  {
  }

  // ---------------------------------------------------------------------------
  // Single-pool result to list-valued shape

  datatype ConvertError = NullSinglePoolResult

  /** Each reviewer keeps their place and their one reviewee becomes a one-element list. */
  function SingletonLists(m: LinkedMap<Person>): (d: Assignment)
    ensures |d| == |m|
  {
    seq(|m|, i requires 0 <= i < |m| => Entry(m[i].key, [m[i].value]))
  }

  lemma {:induction false} SingletonListsFlatten(m: LinkedMap<Person>)
    ensures Flatten(SingletonLists(m)) == Values(m)
    decreases |m|
  {
    if m != [] {
      var m' := m[..|m| - 1];
      SingletonListsFlatten(m');
      assert SingletonLists(m)[..|m| - 1] == SingletonLists(m');
      assert Values(m) == Values(m') + [m[|m| - 1].value];
    }
  }

  /** Converting the older engine's single-pool circle gives the current engine's circle. */
  lemma LegacyCircleMatchesCycle(s: seq<Person>)
    ensures SingletonLists(Legacy.Circle(s)) == Engine.Cycle(s)
  {
  }

  lemma ConvertStep(m: LinkedMap<Person>, i: nat)
    requires Valid(m) && i < |m|
    ensures Put(SingletonLists(m)[..i], m[i].key, [m[i].value]) == SingletonLists(m)[..i + 1]
  {
    var d := SingletonLists(m)[..i];
    assert Keys(d) == Keys(m)[..i];
    DistinctIdsNotInPrefix(Keys(m), i);
    assert Put(d, m[i].key, [m[i].value]) == d + [Entry(m[i].key, [m[i].value])];
    assert SingletonLists(m)[..i + 1] == d + [SingletonLists(m)[i]];
  }

  /**
   * convertSingleToDualFormat: null is refused; otherwise the same reviewers
   * in the same order, each mapped to the one-element list of their reviewee.
   */
  method ConvertSingleToDualFormat(single: Option<LinkedMap<Person>>) returns (r: Result<Assignment, ConvertError>)
    requires single.Some? ==> Valid(single.value)
    ensures single.None? <==> r.Err?
    ensures r.Ok? ==> r.value == SingletonLists(single.value)
    ensures r.Ok? ==> Valid(r.value) && Keys(r.value) == Keys(single.value)
    ensures r.Ok? ==> forall i :: 0 <= i < |r.value| ==> r.value[i].value == [single.value[i].value]
    ensures r.Ok? ==> Flatten(r.value) == Values(single.value)
  {
    if single.None? {
      return Err(NullSinglePoolResult);
    }
    var m := single.value;
    var converted: Assignment := [];
    var i := 0;
    while i < |m|
      invariant 0 <= i <= |m|
      invariant converted == SingletonLists(m)[..i]
    {
      ConvertStep(m, i);
      converted := Put(converted, m[i].key, [m[i].value]);
      i := i + 1;
    }
    assert converted == SingletonLists(m);
    assert Keys(converted) == Keys(m);
    SingletonListsFlatten(m);
    return Ok(converted);
  }

  // ---------------------------------------------------------------------------
  // Summary counts

  /** The sum of the list sizes. */
  function TotalTasks(m: Assignment): nat {
    if m == [] then 0 else TotalTasks(m[..|m| - 1]) + |m[|m| - 1].value|
  }

  /** The distinct employee ids among all reviewees. */
  function CoveredIds(m: Assignment): set<string> {
    IdSet(Flatten(m))
  }

  lemma {:induction false} TotalTasksIsFlattenLength(m: Assignment)
    ensures TotalTasks(m) == |Flatten(m)|
    decreases |m|
  {
    if m != [] {
      TotalTasksIsFlattenLength(m[..|m| - 1]);
    }
  }

  /** No more people are covered than there are tasks, with equality exactly when no one is reviewed twice. */
  lemma CoveredAtMostTasks(m: Assignment)
    ensures |CoveredIds(m)| <= TotalTasks(m)
    ensures |CoveredIds(m)| == TotalTasks(m) <==> DistinctIds(Flatten(m))
  {
    TotalTasksIsFlattenLength(m);
    IdSetCard(Flatten(m));
  }

  /** When the lists cover a pool of distinct ids exactly once, both counts equal the pool size. */
  lemma FullCoverageCounts(m: Assignment, pool: seq<Person>)
    requires multiset(Flatten(m)) == multiset(pool) && DistinctIds(pool)
    ensures TotalTasks(m) == |pool| && |CoveredIds(m)| == |pool|
  {
    TotalTasksIsFlattenLength(m);
    assert |multiset(Flatten(m))| == |multiset(pool)|;
    DistinctIdsPermutation(pool, Flatten(m));
    IdSetCard(Flatten(m));
  }
}
