/**
 The per-file line scanner (`searchInFile` in src/extension.ts): given the text
 of one style sheet and a variable name such as `$color`, find the first line
 that declares the variable and report where it is.
 */
module Scanner {
  import opened Wrappers
  import opened Text

  /** A workspace file: `path` is its file-system path (the cache key) and
      `relPath` its path relative to the workspace folder. */
  datatype SourceFile = SourceFile(path: string, relPath: string)

  /** A position in a file: 0-based line and column. */
  datatype Location = Location(file: SourceFile, line: nat, column: nat)

  /** A found declaration together with its `relPath:line` label. */
  datatype Declaration = Declaration(location: Location, description: string)

  /** The lines of a file: its text split on line feeds (a carriage return
      stays at the end of its line and is removed by trimming). */
  function Lines(content: string): seq<string> {
    Split(content, '\n')
  }

  /** Lines the scanner passes over: blank once trimmed, or a `//` comment. */
  predicate Skipped(line: string) {
    var t := Trim(line);
    t == [] || StartsWith(t, "//")
  }

  /** A line the scanner accepts as a declaration of `name`. */
  predicate Declares(line: string, name: string) {
    !Skipped(line) && Contains(Trim(line), name + ":")
  }

  /** The first line at or after `i` that declares `name`. */
  function FirstDeclaring(lines: seq<string>, name: string, i: nat): (r: Option<nat>)
    requires i <= |lines|
    ensures r.None? ==> forall j :: i <= j < |lines| ==> !Declares(lines[j], name)
    ensures r.Some? ==> && i <= r.value < |lines|
                        && Declares(lines[r.value], name)
                        && forall j :: i <= j < r.value ==> !Declares(lines[j], name)
    decreases |lines| - i
  {
    if i == |lines| then None
    else if Declares(lines[i], name) then Some(i)
    else FirstDeclaring(lines, name, i + 1)
  }

  /** The label shown for a declaration: `${relPath}:${lineNumber}`. */
  function Describe(relPath: string, lineNumber: nat): string {
    relPath + ":" + NatToDecimal(lineNumber)
  }

  /** The whole of what a successful scan of `lines` promises about its
      report `d`. */
  predicate ReportsFirstIn(lines: seq<string>, name: string, file: SourceFile, d: Declaration) {
    var loc := d.location;
    && loc.file == file
    && loc.line < |lines|
    && Declares(lines[loc.line], name)
    && (forall j :: 0 <= j < loc.line ==> !Declares(lines[j], name))
    && OccursAt(lines[loc.line], name, loc.column)
    && (forall j: nat :: j < loc.column ==> !OccursAt(lines[loc.line], name, j))
    && d.description == Describe(file.relPath, loc.line + 1)
  }

  predicate ReportsFirstDeclaration(content: string, name: string, file: SourceFile, d: Declaration) {
    ReportsFirstIn(Lines(content), name, file, d)
  }

  /** `searchInFile` once the file's text is known: the lowest-numbered line
      that is neither blank nor a `//` comment and whose trimmed text contains
      `name + ":"`. The column is the first occurrence of `name` in the
      untrimmed line (never -1), and the label carries the 1-based line
      number. No such line gives `None`. */
  function SearchInFile(content: string, name: string, file: SourceFile): Option<Declaration> {
    var lines := Lines(content);
    match FirstDeclaring(lines, name, 0)
    case None => None
    case Some(i) =>
      ContainsPrefix(Trim(lines[i]), name, ":");
      ContainsUntrimmed(lines[i], name);
      var column := IndexOf(lines[i], name);
      Some(Declaration(Location(file, i, column), Describe(file.relPath, i + 1)))
  }

  /** A scan finds nothing exactly when no line declares the name, and
      otherwise reports the first declaring line. */
  lemma SearchInFileReports(content: string, name: string, file: SourceFile)
    ensures var r := SearchInFile(content, name, file);
            && (r.None? <==> forall j :: 0 <= j < |Lines(content)| ==> !Declares(Lines(content)[j], name))
            && (r.Some? ==> ReportsFirstDeclaration(content, name, file, r.value))
  {
    var lines := Lines(content);
    match FirstDeclaring(lines, name, 0)
    case None =>
    case Some(i) =>
      ContainsPrefix(Trim(lines[i]), name, ":");
      ContainsUntrimmed(lines[i], name);
  }

  /** The report of a scan is pinned down by `ReportsFirstDeclaration`:
      two reports that both satisfy it are equal. */
  lemma ReportUnique(content: string, name: string, file: SourceFile, d: Declaration, e: Declaration)
    requires ReportsFirstDeclaration(content, name, file, d)
    requires ReportsFirstDeclaration(content, name, file, e)
    ensures d == e
  {
  }

  /** The label's line number is the 0-based line index plus one, and the
      label reads back as `relPath`, a colon, and that number. */
  lemma DescriptionLineNumber(relPath: string, index: nat)
    ensures var d := Describe(relPath, index + 1);
            && d[..|relPath| + 1] == relPath + ":"
            && AllDigits(d[|relPath| + 1..])
            && ParseDecimal(d[|relPath| + 1..]) == index + 1
  {
    var d := Describe(relPath, index + 1);
    assert d[|relPath| + 1..] == NatToDecimal(index + 1);
    ParseNatToDecimal(index + 1);
  }

  /** Lines after the first declaration never change the report: at most one
      match is returned per file, and it is the earliest. */
  lemma LaterLinesIgnored(a: string, b: string, name: string, file: SourceFile)
    requires SearchInFile(a, name, file).Some?
    ensures SearchInFile(a + "\n" + b, name, file) == SearchInFile(a, name, file)
  {
    var s := a + "\n" + b;
    SearchInFileReports(a, name, file);
    SplitAppend(a, '\n', b);
    var d := SearchInFile(a, name, file).value;
    ExtendedReport(Lines(a), Lines(b), name, file, d);
    SearchInFileReports(s, name, file);
    assert Declares(Lines(s)[d.location.line], name);
    ReportUnique(s, name, file, SearchInFile(s, name, file).value, d);
  }

  /** Lines appended after `la` leave its first declaration where it is. */
  lemma ExtendedReport(la: seq<string>, lb: seq<string>, name: string, file: SourceFile, d: Declaration)
    requires ReportsFirstIn(la, name, file, d)
    ensures ReportsFirstIn(la + lb, name, file, d)
  {
    var ls, k := la + lb, d.location.line;
    assert ls[k] == la[k];
    forall j | 0 <= j < k ensures !Declares(ls[j], name) {
      assert ls[j] == la[j];
    }
  }

  /** Moves a report down by `n` lines. */
  function Shift(d: Declaration, n: nat): Declaration {
    var loc := d.location;
    Declaration(Location(loc.file, loc.line + n, loc.column), Describe(loc.file.relPath, loc.line + n + 1))
  }

  /** Putting non-declaring lines in front of `lb` moves its first
      declaration down by their number. */
  lemma ShiftedReport(la: seq<string>, lb: seq<string>, name: string, file: SourceFile, d: Declaration)
    requires forall j :: 0 <= j < |la| ==> !Declares(la[j], name)
    requires ReportsFirstIn(lb, name, file, d)
    ensures ReportsFirstIn(la + lb, name, file, Shift(d, |la|))
  {
    var ls, n, k := la + lb, |la|, d.location.line;
    assert ls[k + n] == lb[k];
    forall j | 0 <= j < k + n ensures !Declares(ls[j], name) {
      if j < n { assert ls[j] == la[j]; } else { assert ls[j] == lb[j - n]; }
    }
  }

  /** Two runs of lines that declare nothing declare nothing together. */
  lemma NoDeclarationAppend(la: seq<string>, lb: seq<string>, name: string)
    requires forall j :: 0 <= j < |la| ==> !Declares(la[j], name)
    requires forall j :: 0 <= j < |lb| ==> !Declares(lb[j], name)
    ensures forall j :: 0 <= j < |la + lb| ==> !Declares((la + lb)[j], name)
  {
    forall j | 0 <= j < |la + lb| ensures !Declares((la + lb)[j], name) {
      if j < |la| { assert (la + lb)[j] == la[j]; } else { assert (la + lb)[j] == lb[j - |la|]; }
    }
  }

  /** Lines before the scan reaches a declaration only shift it: if `a`
      declares nothing, the report for `a` followed by `b` is the report for
      `b` moved down by the number of lines of `a`. */
  lemma EarlierLinesShift(a: string, b: string, name: string, file: SourceFile)
    requires SearchInFile(a, name, file).None?
    ensures SearchInFile(a + "\n" + b, name, file) ==
              match SearchInFile(b, name, file)
              case None => None
              case Some(d) => Some(Shift(d, |Lines(a)|))
  {
    var s := a + "\n" + b;
    SearchInFileReports(a, name, file);
    SplitAppend(a, '\n', b);
    var la, lb, ls := Lines(a), Lines(b), Lines(s);
    assert ls == la + lb;
    SearchInFileReports(b, name, file);
    match SearchInFile(b, name, file)
    case None =>
      NoDeclarationAppend(la, lb, name);
      SearchInFileReports(s, name, file);
    case Some(d) =>
      ShiftedReport(la, lb, name, file, d);
      SearchInFileReports(s, name, file);
      ReportUnique(s, name, file, SearchInFile(s, name, file).value, Shift(d, |la|));
  }

  /** A one-line text is its own only line. */
  lemma SingleLine(content: string)
    requires '\n' !in content
    ensures Lines(content) == [content]
  {
    SplitWithoutSeparator(content, '\n');
  }

  /** A line without surrounding white space trims to itself. */
  lemma TrimUnpadded(s: string)
    requires Unpadded(s)
    ensures Trim(s) == s
  {
    assert TrimmedAt(s, s, 0);
    TrimCharacterised(s, s, 0);
  }

  /** A single line whose trimmed text starts with `//` never declares
      anything, whatever follows the comment marker. */
  lemma CommentLineIgnored(line: string, name: string, file: SourceFile)
    requires '\n' !in line
    requires StartsWith(Trim(line), "//")
    ensures SearchInFile(line, name, file).None?
  {
    SingleLine(line);
  }

  /** A commented-out declaration is not a declaration:
      `// $foo: red;` never matches `$foo`. */
  lemma CommentedDeclarationIgnored(file: SourceFile)
    ensures SearchInFile("// $foo: red;", "$foo", file).None?
  {
    var line := "// $foo: red;";
    TrimUnpadded(line);
    assert line[..2] == "//";
    CommentLineIgnored(line, "$foo", file);
  }

  /** A single unpadded line that opens with `name:` declares `name` at
      line 0, column 0. */
  lemma DeclarationLineAtStart(line: string, name: string, file: SourceFile)
    requires '\n' !in line && Unpadded(line)
    requires !StartsWith(line, "//")
    requires StartsWith(line, name + ":")
    ensures SearchInFile(line, name, file) == Some(Declaration(Location(file, 0, 0), Describe(file.relPath, 1)))
  {
    SingleLine(line);
    TrimUnpadded(line);
    assert OccursAt(line, name + ":", 0);
    assert line[..|name|] == (name + ":")[..|name|];
    assert OccursAt(line, name, 0);
  }

  /** A file holding `$color: red;` declares `$color` on its first line, at
      column 0, labelled `relPath:1`. */
  lemma DeclarationOnFirstLine(file: SourceFile)
    ensures SearchInFile("$color: red;", "$color", file) ==
            Some(Declaration(Location(file, 0, 0), file.relPath + ":1"))
  {
    var line := "$color: red;";
    assert Describe(file.relPath, 1) == file.relPath + ":1" by {
      assert NatToDecimal(1) == "1";
    }
    assert '\n' !in line && Unpadded(line);
    assert !StartsWith(line, "//") by {
      assert line[..2][0] == '$';
    }
    assert StartsWith(line, "$color" + ":") by {
      assert line[..7] == "$color:";
    }
    DeclarationLineAtStart(line, "$color", file);
  }
}
