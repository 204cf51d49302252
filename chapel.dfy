/**
 * The diagnostic pipeline of the Chapel language server: find the project
 * root above a source file, read the include directories listed in its
 * `.chapel_lsp` manifest, run `chpl` on the file and turn every line the
 * compiler writes to standard error into a diagnostic record.
 *
 * The file system is a value: a listing for each directory and a text for
 * each file. The compiler is a function from the command line to its exit
 * status and standard error.
 */
module Chapel {
  import opened Wrappers
  import opened JsText
  import opened Paths

  // ------------------------------------------------------------ records

  /**
   * One compiler message. `kind` is the third field (`error`, `warning`);
   * it and `line` are absent when the line has too few fields, and `line`
   * is also absent when parseInt yields NaN.
   */
  datatype ChapelDiagnostic = ChapelDiagnostic(kind: Option<string>, file: string, line: Option<int>, message: string)

  /**
   * Splits one line of compiler output on `:` and trims every field: the
   * file, the line number, the kind, and the rest rejoined with `:` as
   * the message.
   */
  function ParseErrorLine(errorLine: string): (d: ChapelDiagnostic)
    ensures d.kind.Some? <==> |Split(errorLine, ':')| >= 3
    ensures |Split(errorLine, ':')| < 2 ==> d.line.None?
    ensures |Split(errorLine, ':')| < 4 ==> d.message == ""
  {
    var parts := TrimAll(Split(errorLine, ':'));
    ChapelDiagnostic(
      if |parts| > 2 then Some(parts[2]) else None,
      parts[0],
      if |parts| > 1 then ParseInt(parts[1]) else None,
      if |parts| > 3 then Join(parts[3..], ":") else "")
  }

  /** The line the compiler writes for a message: `file:line:kind:message`. */
  function FormatErrorLine(file: string, line: nat, kind: string, message: string): string {
    file + ":" + NatToString(line) + ":" + kind + ":" + message
  }

  /** The file is the trimmed text before the first `:` (all of it when there is none). */
  lemma FileIsFirstField(errorLine: string, i: nat)
    requires i <= |errorLine| && ':' !in errorLine[..i]
    requires i == |errorLine| || errorLine[i] == ':'
    ensures ParseErrorLine(errorLine).file == Trim(errorLine[..i])
  {
    SplitHead(errorLine, ':', i);
  }

  /** Three colon-free fields, then the rest: the rest's pieces follow the three. */
  lemma SplitThreeFields(file: string, line: string, kind: string, rest: string)
    requires ':' !in file && ':' !in line && ':' !in kind
    ensures Split(file + ":" + line + ":" + kind + ":" + rest, ':') == [file, line, kind] + Split(rest, ':')
  {
    var tail := kind + [':'] + rest;
    var mid := line + [':'] + tail;
    assert file + ":" + line + ":" + kind + ":" + rest == file + [':'] + mid;
    SplitFirst(kind, rest, ':');
    SplitFirst(line, tail, ':');
    SplitFirst(file, mid, ':');
  }

  lemma TrimmedThreeFields(file: string, line: string, kind: string, rest: string)
    requires ':' !in file && ':' !in line && ':' !in kind
    ensures TrimAll(Split(file + ":" + line + ":" + kind + ":" + rest, ':'))
         == [Trim(file), Trim(line), Trim(kind)] + TrimAll(Split(rest, ':'))
  {
    var pieces := Split(rest, ':');
    SplitThreeFields(file, line, kind, rest);
    TrimAllAppend([file, line, kind], pieces);
    assert TrimAll([file, line, kind]) == [Trim(file), Trim(line), Trim(kind)];
  }

  /**
   * With three colon-free leading fields, the record holds those fields
   * trimmed, and the message is everything after the third `:`, each of
   * its colon-separated pieces trimmed and the colons kept.
   */
  lemma ParseFields(file: string, line: string, kind: string, rest: string)
    requires ':' !in file && ':' !in line && ':' !in kind
    ensures ParseErrorLine(file + ":" + line + ":" + kind + ":" + rest)
         == ChapelDiagnostic(Some(Trim(kind)), Trim(file), ParseInt(Trim(line)), Join(TrimAll(Split(rest, ':')), ":"))
  {
    TrimmedThreeFields(file, line, kind, rest);
  }

  /**
   * Parsing recovers every field of a line the compiler writes, when the
   * fields carry no surrounding white space: colons inside the message
   * survive.
   */
  lemma ParseFormatRoundTrip(file: string, line: nat, kind: string, message: string)
    requires ':' !in file && IsTrimmed(file)
    requires ':' !in kind && IsTrimmed(kind)
    requires forall i :: 0 <= i < |Split(message, ':')| ==> IsTrimmed(Split(message, ':')[i])
    ensures ParseErrorLine(FormatErrorLine(file, line, kind, message)) == ChapelDiagnostic(Some(kind), file, Some(line), message)
  {
    var n := NatToString(line);
    assert ':' !in n && IsTrimmed(n);
    ParseFields(file, n, kind, message);
    TrimOfTrimmed(file);
    TrimOfTrimmed(kind);
    TrimOfTrimmed(n);
    ParseIntOfNatToString(line);
    TrimAllOfTrimmed(Split(message, ':'));
    JoinOfSplit(message, ':');
  }

  /**
   * The line number is parseInt of the trimmed second field: the value of
   * a decimal numeral, and absent (NaN) when the field does not start
   * with a sign or a digit.
   */
  lemma LineField(file: string, field: string, rest: string)
    requires ':' !in file && ':' !in field
    requires rest == [] || rest[0] == ':'
    ensures ParseErrorLine(file + ":" + field + rest).line == ParseInt(Trim(field))
    ensures IsDecimal(Trim(field)) ==> ParseErrorLine(file + ":" + field + rest).line == Some(ValueIn(Trim(field), 10))
    ensures var t := Trim(field);
            (t == [] || !(t[0] == '+' || t[0] == '-' || '0' <= t[0] <= '9')) ==> ParseErrorLine(file + ":" + field + rest).line.None?
  {
    var tail := field + rest;
    assert file + ":" + field + rest == file + [':'] + tail;
    SplitFirst(file, tail, ':');
    SplitHead(tail, ':', |field|);
    assert tail[..|field|] == field;
    var t := Trim(field);
    if IsDecimal(t) {
      ParseIntDecimal(t);
    }
    if t != [] {
      assert !IsSpace(t[0]);
    }
  }

  /**
   * The kind is the trimmed third field, whether or not a message
   * follows it.
   */
  lemma KindField(file: string, line: string, kind: string, rest: string)
    requires ':' !in file && ':' !in line && ':' !in kind
    requires rest == [] || rest[0] == ':'
    ensures ParseErrorLine(file + ":" + line + ":" + kind + rest).kind == Some(Trim(kind))
  {
    var tail := kind + rest;
    var mid := line + [':'] + tail;
    assert file + ":" + line + ":" + kind + rest == file + [':'] + mid;
    SplitFirst(file, mid, ':');
    SplitFirst(line, tail, ':');
    SplitHead(tail, ':', |kind|);
    assert tail[..|kind|] == kind;
  }

  /** Every line becomes one record, in order (`errors.map(parse_error_line)`). */
  function ParseAll(lines: seq<string>): (ds: seq<ChapelDiagnostic>)
    ensures |ds| == |lines|
    ensures forall i :: 0 <= i < |lines| ==> ds[i] == ParseErrorLine(lines[i])
  {
    if |lines| == 0 then [] else [ParseErrorLine(lines[0])] + ParseAll(lines[1..])
  }

  // -------------------------------------------------------- root search

  /** The manifest that marks a project root and lists its include directories. */
  const Manifest := ".chapel_lsp"

  /** The repository marker that stops the search without being a root. */
  const GitDir := ".git"

  /** What the pipeline reads: directory listings and file texts. */
  datatype FileSystem = FileSystem(listing: map<Path, set<string>>, text: map<Path, string>)

  /** A root found, no root, or a directory whose listing cannot be read. */
  datatype RootSearch = Found(dir: Path) | NotFound | Unreadable(dir: Path)

  /** The search goes on past `dir`: it is listed and holds neither marker. */
  predicate Passes(fs: FileSystem, dir: Path) {
    dir in fs.listing && Manifest !in fs.listing[dir] && GitDir !in fs.listing[dir]
  }

  /** The search stops at `dir` without a root: `.git` is there and `.chapel_lsp` is not. */
  predicate IsBoundary(fs: FileSystem, dir: Path) {
    dir in fs.listing && GitDir in fs.listing[dir] && Manifest !in fs.listing[dir]
  }

  /** The search passes every ancestor of `start` (itself included) deeper than `depth`. */
  predicate PassesDownTo(fs: FileSystem, start: Path, depth: nat) {
    forall k :: depth < k <= |start| ==> Passes(fs, start[..k])
  }

  /**
   * The upward search from `dir`: the first directory holding the
   * manifest, or nothing at the first one holding only `.git`, or nothing
   * on reaching `/`, which is never listed.
   */
  function RootFrom(fs: FileSystem, dir: Path): (r: RootSearch)
    ensures r.Found? ==> 0 < |r.dir| <= |dir| && r.dir == dir[..|r.dir|]
    ensures r.Found? ==> r.dir in fs.listing && Manifest in fs.listing[r.dir]
    ensures r.Unreadable? ==> 0 < |r.dir| <= |dir| && r.dir == dir[..|r.dir|] && r.dir !in fs.listing
    decreases |dir|
  {
    if dir == [] then NotFound
    else if dir !in fs.listing then Unreadable(dir)
    else if Manifest in fs.listing[dir] then Found(dir)
    else if GitDir in fs.listing[dir] then NotFound
    else RootFrom(fs, Dirname(dir))
  }

  /** One step up: the search from a passed directory is the search from its parent. */
  lemma PassesDownToStep(fs: FileSystem, start: Path, depth: nat)
    requires start != [] && depth < |start|
    ensures PassesDownTo(fs, start, depth) <==> Passes(fs, start) && PassesDownTo(fs, Dirname(start), depth)
  {
    var up := Dirname(start);
    assert start[..|start|] == start;
    assert forall k :: 0 <= k <= |up| ==> up[..k] == start[..k];
  }

  /**
   * The search finds `d` exactly when `d` is an ancestor of the start
   * (inclusive, not `/`) holding the manifest and every directory on the
   * way to it is listed and holds neither marker: `d` is the nearest
   * manifest, and no `.git` boundary lies before it.
   */
  lemma {:induction false} RootFoundIff(fs: FileSystem, start: Path, d: Path)
    ensures RootFrom(fs, start) == Found(d)
        <==> 0 < |d| <= |start| && d == start[..|d|] && PassesDownTo(fs, start, |d|)
             && d in fs.listing && Manifest in fs.listing[d]
    decreases |start|
  {
    if start != [] {
      assert start[..|start|] == start;
      if Passes(fs, start) {
        var up := Dirname(start);
        RootFoundIff(fs, up, d);
        if 0 < |d| < |start| {
          PassesDownToStep(fs, start, |d|);
          assert up[..|d|] == start[..|d|];
        }
      }
    }
  }

  /**
   * The search gives up exactly when it passes every directory up to `/`,
   * or passes every directory up to a `.git` boundary.
   */
  lemma {:induction false} RootNotFoundIff(fs: FileSystem, start: Path)
    ensures RootFrom(fs, start) == NotFound
        <==> PassesDownTo(fs, start, 0)
             || exists k :: 0 < k <= |start| && PassesDownTo(fs, start, k) && IsBoundary(fs, start[..k])
    decreases |start|
  {
    if start != [] {
      assert start[..|start|] == start;
      var up := Dirname(start);
      if Passes(fs, start) {
        RootNotFoundIff(fs, up);
        PassesDownToStep(fs, start, 0);
        if RootFrom(fs, start) == NotFound {
          if !PassesDownTo(fs, up, 0) {
            var k :| 0 < k <= |up| && PassesDownTo(fs, up, k) && IsBoundary(fs, up[..k]);
            PassesDownToStep(fs, start, k);
            assert up[..k] == start[..k];
          }
        } else {
          forall k | 0 < k <= |start| && PassesDownTo(fs, start, k)
            ensures !IsBoundary(fs, start[..k])
          {
            if k < |start| {
              PassesDownToStep(fs, start, k);
              assert up[..k] == start[..k];
            }
          }
        }
      } else if IsBoundary(fs, start) {
        assert PassesDownTo(fs, start, |start|);
      } else {
        forall k | 0 <= k < |start| ensures !PassesDownTo(fs, start, k) {
          assert !Passes(fs, start[..|start|]);
        }
      }
    }
  }

  /** The search fails on `d` exactly when `d` is the first directory on the way that is not listed. */
  lemma {:induction false} RootUnreadableIff(fs: FileSystem, start: Path, d: Path)
    ensures RootFrom(fs, start) == Unreadable(d)
        <==> 0 < |d| <= |start| && d == start[..|d|] && PassesDownTo(fs, start, |d|) && d !in fs.listing
    decreases |start|
  {
    if start != [] {
      assert start[..|start|] == start;
      if Passes(fs, start) {
        var up := Dirname(start);
        RootUnreadableIff(fs, up, d);
        if 0 < |d| < |start| {
          PassesDownToStep(fs, start, |d|);
          assert up[..|d|] == start[..|d|];
        }
      }
    }
  }

  /** The listing of `/` never affects the search. */
  lemma {:induction false} RootIgnoresSlash(fs: FileSystem, start: Path, entries: set<string>)
    ensures RootFrom(fs.(listing := fs.listing[[] := entries]), start) == RootFrom(fs, start)
    decreases |start|
  {
    if start != [] {
      var fs' := fs.(listing := fs.listing[[] := entries]);
      assert start in fs'.listing <==> start in fs.listing;
      assert start in fs.listing ==> fs'.listing[start] == fs.listing[start];
      RootIgnoresSlash(fs, Dirname(start), entries);
    }
  }

  /** find_root: walk up from the target's directory until a marker decides. */
  method FindRoot(fs: FileSystem, target: Path) returns (r: RootSearch)
    ensures r == RootFrom(fs, Dirname(target))
  {
    var dir := Dirname(target);
    while dir != []
      invariant RootFrom(fs, dir) == RootFrom(fs, Dirname(target))
      decreases |dir|
    {
      if dir !in fs.listing {
        return Unreadable(dir);
      }
      var files := fs.listing[dir];
      if Manifest in files {
        return Found(dir);
      } else if GitDir in files {
        break;
      }
      dir := Dirname(dir);
    }
    return NotFound;
  }

  // ----------------------------------------------------------- includes

  /** `.filter(str => str != "")`. */
  function DropBlank(lines: seq<string>): (r: seq<string>)
    ensures forall i :: 0 <= i < |r| ==> r[i] != ""
  {
    if |lines| == 0 then []
    else if lines[0] == "" then DropBlank(lines[1..]) else [lines[0]] + DropBlank(lines[1..])
  }

  /** Filtering keeps exactly the non-blank lines, each as often as it occurs. */
  lemma {:induction false} DropBlankKeeps(lines: seq<string>, x: string)
    ensures x in DropBlank(lines) <==> x in lines && x != ""
    ensures Occurrences(DropBlank(lines), x) == if x == "" then 0 else Occurrences(lines, x)
  {
    if |lines| > 0 {
      DropBlankKeeps(lines[1..], x);
      assert lines == [lines[0]] + lines[1..];
    }
  }

  /** Filtering drops one element per blank line. */
  lemma {:induction false} DropBlankCount(lines: seq<string>)
    ensures |DropBlank(lines)| == |lines| - Occurrences(lines, "")
  {
    if |lines| > 0 {
      DropBlankCount(lines[1..]);
    }
  }

  /** Filtering keeps the order: it filters each part of a concatenation separately. */
  lemma {:induction false} DropBlankAppend(a: seq<string>, b: seq<string>)
    ensures DropBlank(a + b) == DropBlank(a) + DropBlank(b)
  {
    if |a| == 0 {
      assert a + b == b;
    } else {
      assert (a + b)[1..] == a[1..] + b;
      DropBlankAppend(a[1..], b);
    }
  }

  /**
   * The entries of a manifest: its lines trimmed, blank ones dropped.
   * There are as many as there are non-blank lines.
   */
  function IncludeLines(text: string): (ls: seq<string>)
    ensures forall i :: 0 <= i < |ls| ==> ls[i] != ""
  {
    DropBlank(TrimAll(Split(text, '\n')))
  }

  /**
   * Every entry is trimmed and non-empty, and there are as many entries
   * as the manifest has non-blank lines.
   */
  lemma IncludeLinesShape(text: string)
    ensures forall i :: 0 <= i < |IncludeLines(text)| ==> IsTrimmed(IncludeLines(text)[i])
    ensures |IncludeLines(text)| == |Split(text, '\n')| - Occurrences(TrimAll(Split(text, '\n')), "")
  {
    var ls := IncludeLines(text);
    var trimmed := TrimAll(Split(text, '\n'));
    forall i | 0 <= i < |ls| ensures IsTrimmed(ls[i]) {
      DropBlankKeeps(trimmed, ls[i]);
      var j :| 0 <= j < |trimmed| && trimmed[j] == ls[i];
    }
    DropBlankCount(trimmed);
  }

  /** An entry is exactly the trimmed text of some non-blank manifest line. */
  lemma IncludeLinesMember(text: string, x: string)
    ensures x in IncludeLines(text)
        <==> x != "" && exists j :: 0 <= j < |Split(text, '\n')| && Trim(Split(text, '\n')[j]) == x
  {
    var trimmed := TrimAll(Split(text, '\n'));
    DropBlankKeeps(trimmed, x);
    if x in IncludeLines(text) {
      var j :| 0 <= j < |trimmed| && trimmed[j] == x;
      assert Trim(Split(text, '\n')[j]) == x;
    }
  }

  /** Entries keep file order: the entries of two texts joined by a newline are the entries of each, in turn. */
  lemma IncludeLinesAppend(a: string, b: string)
    ensures IncludeLines(a + "\n" + b) == IncludeLines(a) + IncludeLines(b)
  {
    SplitConcat(a, b, '\n');
    TrimAllAppend(Split(a, '\n'), Split(b, '\n'));
    DropBlankAppend(TrimAll(Split(a, '\n')), TrimAll(Split(b, '\n')));
  }

  /** The compiler flag for one include directory. */
  function IncludeFlag(root: Path, entry: string): (flag: string)
    ensures |flag| >= 4 && flag[..3] == "-M " && flag[3] == '/'
  {
    "-M " + Render(JoinPath(root, entry))
  }

  /** One flag per entry, in order (`.map(path.join).map(-M ...)`). */
  function FlagsFor(root: Path, entries: seq<string>): (flags: seq<string>)
    ensures |flags| == |entries|
    ensures forall i :: 0 <= i < |entries| ==> flags[i] == IncludeFlag(root, entries[i])
  {
    if |entries| == 0 then [] else [IncludeFlag(root, entries[0])] + FlagsFor(root, entries[1..])
  }

  /** The flags of a manifest found at `root`. */
  function IncludeFlags(root: Path, text: string): seq<string> {
    FlagsFor(root, IncludeLines(text))
  }

  /** A flag is the two words `-M` and the directory when the directory has no space. */
  lemma IncludeFlagWords(root: Path, entry: string)
    requires ' ' !in Render(JoinPath(root, entry))
    ensures Split(IncludeFlag(root, entry), ' ') == ["-M", Render(JoinPath(root, entry))]
  {
    var p := Render(JoinPath(root, entry));
    assert IncludeFlag(root, entry) == "-M" + [' '] + p;
    SplitConcat("-M", p, ' ');
    SplitNoSep("-M", ' ');
    SplitNoSep(p, ' ');
  }

  /**
   * read_includes: no root gives no flags; a root gives one flag per
   * manifest entry. A directory that cannot be listed or a manifest that
   * cannot be read is the failing path.
   */
  function IncludesOf(fs: FileSystem, target: Path): (r: Result<seq<string>, Path>)
    ensures RootFrom(fs, Dirname(target)).NotFound? ==> r == Success([])
    ensures r.Success? && r.value != [] ==> RootFrom(fs, Dirname(target)).Found?
  {
    match RootFrom(fs, Dirname(target))
    case NotFound => Success([])
    case Unreadable(d) => Failure(d)
    case Found(d) =>
      var manifest := d + [Manifest];
      if manifest in fs.text then Success(IncludeFlags(d, fs.text[manifest])) else Failure(manifest)
  }

  /** With a root and its manifest, there is one flag per non-blank manifest line. */
  lemma IncludesCount(fs: FileSystem, target: Path, root: Path)
    requires RootFrom(fs, Dirname(target)) == Found(root) && root + [Manifest] in fs.text
    ensures var lines := Split(fs.text[root + [Manifest]], '\n');
            IncludesOf(fs, target).Success?
            && |IncludesOf(fs, target).value| == |lines| - Occurrences(TrimAll(lines), "")
  {
    IncludeLinesShape(fs.text[root + [Manifest]]);
  }

  /** read_includes, calling find_root. */
  method ReadIncludes(fs: FileSystem, target: Path) returns (r: Result<seq<string>, Path>)
    ensures r == IncludesOf(fs, target)
  {
    var root := FindRoot(fs, target);
    match root
    case NotFound =>
      return Success([]);
    case Unreadable(d) =>
      return Failure(d);
    case Found(d) =>
      var manifest := d + [Manifest];
      if manifest !in fs.text {
        return Failure(manifest);
      }
      var entries := IncludeLines(fs.text[manifest]);
      return Success(FlagsFor(d, entries));
  }

  // ---------------------------------------------------------- compiling

  /** How the compiler run ended: its exit status and its standard error. */
  datatype Exit = Exit(status: int, stderr: string)

  /** `chpl <file> --no-codegen --baseline <includes...>`, one space between words. */
  function Command(target: string, includes: seq<string>): string {
    Join(["chpl", target, "--no-codegen", "--baseline"] + includes, " ")
  }

  lemma SplitEachAppend(a: seq<string>, b: seq<string>, sep: char)
    ensures SplitEach(a + b, sep) == SplitEach(a, sep) + SplitEach(b, sep)
  {
    assert forall i :: 0 <= i < |a| ==> (a + b)[i] == a[i];
    assert forall i :: 0 <= i < |b| ==> (a + b)[|a| + i] == b[i];
  }

  lemma SplitJoinAppend(head: seq<string>, tail: seq<string>, sep: char)
    requires |head| >= 1
    ensures Split(Join(head + tail, [sep]), sep) == Flatten(SplitEach(head, sep)) + Flatten(SplitEach(tail, sep))
  {
    SplitOfJoinAny(head + tail, sep);
    SplitEachAppend(head, tail, sep);
    FlattenAppend(SplitEach(head, sep), SplitEach(tail, sep));
  }

  /** The words of four parts, the first, third and fourth being single words. */
  lemma HeadWords(first: string, target: string, third: string, fourth: string)
    requires ' ' !in first && ' ' !in third && ' ' !in fourth
    ensures Flatten(SplitEach([first, target, third, fourth], ' ')) == [first] + Split(target, ' ') + [third, fourth]
  {
    var hs := SplitEach([first, target, third, fourth], ' ');
    assert hs == [[first], Split(target, ' '), [third], [fourth]] by {
      SplitNoSep(first, ' ');
      SplitNoSep(third, ' ');
      SplitNoSep(fourth, ' ');
    }
    calc {
      Flatten(hs);
      [first] + Flatten(hs[1..]);
      { assert hs[1..][1..] == hs[2..]; }
      [first] + (Split(target, ' ') + Flatten(hs[2..]));
      { assert hs[2..][1..] == hs[3..]; }
      [first] + (Split(target, ' ') + ([third] + Flatten(hs[3..])));
      [first] + Split(target, ' ') + [third, fourth];
    }
  }

  /**
   * The words of the command line: `chpl`, the words of the target, the
   * two fixed flags, then the words of each include flag in order.
   */
  lemma CommandWords(target: string, includes: seq<string>)
    ensures Split(Command(target, includes), ' ')
         == ["chpl"] + Split(target, ' ') + ["--no-codegen", "--baseline"] + Flatten(SplitEach(includes, ' '))
  {
    SplitJoinAppend(["chpl", target, "--no-codegen", "--baseline"], includes, ' ');
    HeadWords("chpl", target, "--no-codegen", "--baseline");
  }

  /**
   * The lines of the compiler's complaint: none after exit status 0,
   * whatever it wrote; otherwise its trimmed standard error cut at each
   * newline.
   */
  function ErrorLines(e: Exit): (lines: seq<string>)
    ensures e.status == 0 ==> lines == []
    ensures e.status != 0 ==> |lines| == Occurrences(Trim(e.stderr), '\n') + 1
    ensures forall i :: 0 <= i < |lines| ==> '\n' !in lines[i]
  {
    if e.status == 0 then []
    else
      SplitCount(Trim(e.stderr), '\n');
      Split(Trim(e.stderr), '\n')
  }

  /** The lines put back together with newlines are the trimmed standard error. */
  lemma ErrorLinesJoin(e: Exit)
    requires e.status != 0
    ensures Join(ErrorLines(e), "\n") == Trim(e.stderr)
  {
    JoinOfSplit(Trim(e.stderr), '\n');
  }

  /** A failing run with nothing but white space on standard error still yields one, empty, record. */
  lemma BlankFailureOneRecord(e: Exit)
    requires e.status != 0 && Trim(e.stderr) == ""
    ensures ParseAll(ErrorLines(e)) == [ChapelDiagnostic(None, "", None, "")]
  {
    assert ErrorLines(e) == [""];
    assert TrimAll([""]) == [Trim("")];
    assert Trim("") == "";
  }

  /** run_chapel: the error lines of one compiler run on the target with its include flags. */
  method RunChapel(fs: FileSystem, target: Path, chpl: string -> Exit) returns (r: Result<seq<string>, Path>)
    ensures IncludesOf(fs, target).Failure? ==> r == Failure(IncludesOf(fs, target).error)
    ensures IncludesOf(fs, target).Success?
        ==> r == Success(ErrorLines(chpl(Command(Render(target), IncludesOf(fs, target).value))))
  {
    var includes :- ReadIncludes(fs, target);
    var command := Command(Render(target), includes);
    var outcome := chpl(command);
    return Success(ErrorLines(outcome));
  }

  /**
   * diagnose: one record per error line, in order, none at all when the
   * compiler exits with status 0.
   */
  method Diagnose(fs: FileSystem, target: Path, chpl: string -> Exit) returns (r: Result<seq<ChapelDiagnostic>, Path>)
    ensures r.Failure? <==> IncludesOf(fs, target).Failure?
    ensures r.Success? ==>
      var lines := ErrorLines(chpl(Command(Render(target), IncludesOf(fs, target).value)));
      |r.value| == |lines| && forall i :: 0 <= i < |lines| ==> r.value[i] == ParseErrorLine(lines[i])
    ensures r.Success? && chpl(Command(Render(target), IncludesOf(fs, target).value)).status == 0 ==> r.value == []
  {
    var errors :- RunChapel(fs, target, chpl);
    return Success(ParseAll(errors));
  }
}
