/** The codebook tool: it selects the text files under a source root, wraps each
    one in a markdown fenced code block tagged with the language of its extension,
    names the result after the file under a destination root, and emits two
    build scripts that render the markdown with pandoc. File contents, the
    text-file probe and the metadata file are inputs; the files the tool writes
    are returned as a list of (path, text) writes. */
module Codebook {
  import opened Strings
  import opened Paths
  import opened Sorting

  datatype Option<T> = None | Some(value: T)

  /** One file written by the tool: its path and its whole text. */
  datatype FileWrite = FileWrite(path: string, text: string)

  // Language tags

  /** `ext_lang_map`: the fixed table from lower-case extension to the language tag
      of a code fence. */
  const ExtLangMap: map<string, string> := map[
    ".rs" := "rust",
    ".h" := "c",
    ".c" := "c",
    ".cpp" := "cpp",
    ".hpp" := "cpp",
    ".py" := "python",
    ".js" := "javascript",
    ".rb" := "ruby",
    ".java" := "java"
  ]

  /** Every key of the table is an extension as `splitext` returns it (a dot and
      at least one more character) and no tag is empty, so an empty tag from the
      lookup always means the extension is missing from the table. */
  lemma ExtLangMapShape()
    ensures forall k | k in ExtLangMap :: |k| >= 2 && k[0] == '.'
    ensures forall k | k in ExtLangMap :: ExtLangMap[k] != ""
  {
  }

  /** `getCodeLanguage(ext)`: the table entry of the lower-cased extension, and the
      empty tag for any extension the table lacks; it never fails. */
  function CodeLanguage(ext: string): (lang: string)
    ensures lang != "" <==> ToLower(ext) in ExtLangMap
    ensures lang != "" ==> lang in ExtLangMap.Values && lang == ExtLangMap[ToLower(ext)]
  {
    var key := ToLower(ext);
    if key in ExtLangMap then ExtLangMap[key] else ""
  }

  /** The lookup ignores case: an extension and its lower-cased form get the same tag. */
  lemma CodeLanguageIgnoresCase(ext: string)
    ensures CodeLanguage(ToLower(ext)) == CodeLanguage(ext)
  {
    ToLowerIdempotent(ext);
  }

  /** Sample lookups against the table: an upper-case key, a lower-case key and an
      extension the table lacks. */
  lemma CodeLanguageExamples()
    ensures CodeLanguage(".PY") == "python"
    ensures CodeLanguage(".rs") == "rust"
    ensures CodeLanguage(".go") == ""
  {
    assert ToLower(".PY") == ".py";
    ToLowerNoUpper(".rs");
    ToLowerNoUpper(".go");
  }

  // Root stripping

  /** `removeRoot(path, root)`: `path.replace(root + '/', '')` on POSIX strings.
      Every occurrence of `root/` is deleted, not only a leading one: the result is
      what lies between the occurrences. */
  function RemoveRoot(path: string, root: string): (r: string)
    ensures r == Concat(Split(path, root + "/"))
  {
    ConcatSplit(path, root + "/");
    RemoveAll(path, root + "/")
  }

  /** The pieces the result is made of are the text between the occurrences of
      `root/` in `path`, found left to right without overlap: joined back with
      `root/` they give `path`, none of them holds `root/`, the first ends at the
      leftmost occurrence, and the rest are the pieces of what follows it. */
  lemma RemoveRootPieces(path: string, root: string, j: int)
    requires 0 <= j < |Split(path, root + "/")|
    ensures Join(Split(path, root + "/"), root + "/") == path
    ensures !Contains(Split(path, root + "/")[j], root + "/")
    ensures var pieces, pat := Split(path, root + "/"), root + "/";
      && (forall i | 0 <= i < |pieces[0]| :: !OccursAt(path, pat, i))
      && (|pieces| > 1 ==>
            && OccursAt(path, pat, |pieces[0]|)
            && pieces[1..] == Split(path[|pieces[0]| + |pat|..], pat))
  {
    JoinSplit(path, root + "/");
    SplitPiecesFree(path, root + "/", j);
    SplitHeadNoEarlier(path, root + "/");
    SplitHeadThenOccurs(path, root + "/");
    SplitTail(path, root + "/");
  }

  /** A path that does not mention `root/` is returned as it is. */
  lemma RemoveRootAbsent(path: string, root: string)
    requires !Contains(path, root + "/")
    ensures RemoveRoot(path, root) == path
  {
    RemoveAllAbsent(path, root + "/");
  }

  /** A path that mentions `root/` only at its start loses that prefix. */
  lemma RemoveRootPrefix(root: string, rest: string)
    requires !Contains(rest, root + "/")
    ensures RemoveRoot(root + "/" + rest, root) == rest
  {
    RemoveAllOnlyPrefix(root + "/", rest);
  }

  // Markdown wrapping

  /** The heading line naming the file: `'\n# {}\n'.format(short_name)`. */
  function Heading(shortName: string): (line: string)
  {
    "\n# " + shortName + "\n"
  }

  /** The heading is a blank line, then `# ` and the short name on a line of its own. */
  lemma HeadingLayout(shortName: string)
    ensures var line := Heading(shortName);
      && |line| == |shortName| + 4 && line[3..|line| - 1] == shortName
      && line[0] == '\n' && line[1] == '#' && line[2] == ' ' && line[|line| - 1] == '\n'
  {
  }

  /** The line opening the fence: `'```{}\n'.format(lang)`. */
  function FenceOpen(lang: string): (line: string)
  {
    "```" + lang + "\n"
  }

  /** The opening fence is three backticks, the language tag and a newline. */
  lemma FenceOpenLayout(lang: string)
    ensures var line := FenceOpen(lang);
      && |line| == |lang| + 4 && line[3..|line| - 1] == lang
      && line[0] == '`' && line[1] == '`' && line[2] == '`' && line[|line| - 1] == '\n'
  {
  }

  /** The line closing the fence: an opening fence line with no language tag. */
  function FenceClose(): (line: string)
    ensures line == FenceOpen("")
  {
    "```\n"
  }

  /** The lines written for a source file with the given lines: unchanged for a
      file whose name ends in `.md`, otherwise wrapped in a heading and a fence
      tagged with the language of the short name's extension. */
  function Wrapped(fileName: string, shortName: string, lines: seq<string>): (texts: seq<string>)
  {
    if EndsWith(fileName, ".md") then lines
    else [Heading(shortName), FenceOpen(CodeLanguage(SplitExt(shortName).1))] + lines + [FenceClose()]
  }

  /** `list.insert(i, x)` for a non-negative index: `x` lands at `i`, or at the end
      when `i` is past it, and the other elements keep their order. */
  function Insert(s: seq<string>, i: nat, x: string): (r: seq<string>)
    ensures |r| == |s| + 1
    ensures var k := if i < |s| then i else |s|;
      && r[k] == x
      && (forall j | 0 <= j < k :: r[j] == s[j])
      && (forall j | k <= j < |s| :: r[j + 1] == s[j])
  {
    if i < |s| then s[..i] + [x] + s[i..] else s + [x]
  }

  /** `insert(0, x)` puts `x` in front of the list. */
  lemma InsertFront(s: seq<string>, x: string)
    ensures Insert(s, 0, x) == [x] + s
  {
  }

  /** `insert(1, y)` on a list starting with `x` puts `y` right after `x`. */
  lemma InsertSecond(x: string, s: seq<string>, y: string)
    ensures Insert([x] + s, 1, y) == [x, y] + s
  {
    assert ([x] + s)[..1] == [x] && ([x] + s)[1..] == s;
  }

  /** The destination name of a source file: `dest/<short name without extension>.md`. */
  function DestName(fileName: string, root: string, dest: string): (dstName: string)
    ensures |dstName| > |dest| && dstName[..|dest|] == dest && dstName[|dest|] == '/'
    ensures EndsWith(dstName, ".md")
  {
    var name := SplitExt(RemoveRoot(fileName, root)).0 + ".md";
    assert JoinPath(dest, name)[|dest| + 1..] == name;
    JoinPath(dest, name)
  }

  /** `convertSource2Md(file_name, root, dest)` on the lines `srcTexts` read from the
      file: returns the short name, the destination name and the lines written there. */
  method ConvertSource2Md(fileName: string, root: string, dest: string, srcTexts: seq<string>)
    returns (shortName: string, dstName: string, texts: seq<string>)
    ensures shortName == RemoveRoot(fileName, root)
    ensures dstName == DestName(fileName, root, dest)
    ensures SplitExt(shortName).0 + SplitExt(shortName).1 == shortName
    ensures EndsWith(dstName, ".md")
    ensures texts == Wrapped(fileName, shortName, srcTexts)
    ensures EndsWith(fileName, ".md") ==> texts == srcTexts
    ensures !EndsWith(fileName, ".md") ==>
      && |texts| == |srcTexts| + 3
      && texts[0] == Heading(shortName)
      && texts[1] == FenceOpen(CodeLanguage(SplitExt(shortName).1))
      && texts[2..|srcTexts| + 2] == srcTexts
      && texts[|srcTexts| + 2] == FenceClose()
  {
    texts := srcTexts;
    shortName := RemoveRoot(fileName, root);
    var (stem, ext) := SplitExt(shortName);
    var lang := CodeLanguage(ext);
    if !EndsWith(fileName, ".md") {
      InsertFront(srcTexts, Heading(shortName));
      texts := Insert(texts, 0, Heading(shortName));
      InsertSecond(Heading(shortName), srcTexts, FenceOpen(lang));
      texts := Insert(texts, 1, FenceOpen(lang));
      texts := texts + [FenceClose()];
    }
    dstName := JoinPath(dest, stem + ".md");
    assert dstName[|dstName| - 3..] == ".md";
  }

  /** The `.md` test is on the exact name: `X.MD` is wrapped, while the language
      lookup still lower-cases the extension. */
  lemma UpperCaseMdIsWrapped(stem: string, shortName: string, lines: seq<string>)
    ensures |Wrapped(stem + ".MD", shortName, lines)| == |lines| + 3
  {
    var f := stem + ".MD";
    assert f[|f| - 3..] == ".MD";
  }

  /** The text written for a wrapped file is heading, fence, the file's own text and
      the closing fence, with nothing in between: when the file's last line has no
      newline, the closing fence ends up on that line. */
  lemma WrappedText(fileName: string, shortName: string, lines: seq<string>)
    requires !EndsWith(fileName, ".md")
    ensures Concat(Wrapped(fileName, shortName, lines))
      == Heading(shortName) + FenceOpen(CodeLanguage(SplitExt(shortName).1)) + Concat(lines) + FenceClose()
  {
    var h := [Heading(shortName), FenceOpen(CodeLanguage(SplitExt(shortName).1))];
    ConcatSplice(h + lines, [FenceClose()]);
    ConcatSplice(h, lines);
    assert Concat([FenceClose()]) == FenceClose();
    assert Concat(h) == h[0] + Concat(h[1..]);
    assert h[1..] == [h[1]];
  }

  // Source selection

  /** `getSourceFiles(root)` on the entries `candidates` the recursive glob found,
      with `isText` standing for the `isTextFile` probe: the entries that pass the
      probe, sorted ascending. */
  method SourceFiles(candidates: seq<string>, isText: string -> bool) returns (files: seq<string>)
    ensures Sorted(files)
    ensures multiset(files) == multiset(Filter(candidates, isText))
    ensures forall f :: f in files <==> f in candidates && isText(f)
  {
    var listed := Filter(candidates, isText);
    var a := new string[|listed|](i requires 0 <= i < |listed| => listed[i]);
    assert a[..] == listed;
    SortInPlace(a);
    files := a[..];
    assert forall f :: f in files <==> f in multiset(files);
  }

  /** The selected files do not depend on the order the walk listed the entries in. */
  lemma SourceOrderDeterministic(c1: seq<string>, c2: seq<string>, isText: string -> bool,
                                 f1: seq<string>, f2: seq<string>)
    requires multiset(c1) == multiset(c2)
    requires Sorted(f1) && multiset(f1) == multiset(Filter(c1, isText))
    requires Sorted(f2) && multiset(f2) == multiset(Filter(c2, isText))
    ensures f1 == f2
  {
    FilterPermutation(c1, c2, isText);
    SortedUnique(f1, f2);
  }

  // Build scripts

  const PandocWord: string := "pandoc "
  const MetaFlag: string := "--metadata-file=meta.yaml"
  const OutputFlag: string := "-o output.pdf"

  /** The render command for one output file, without its newline:
      `' '.join(['pandoc ', fn, '--metadata-file=meta.yaml', '-o', pdf])`. */
  function PerFileCommand(fn: string): (cmd: string)
    ensures cmd == PandocWord + " " + fn + " " + MetaFlag + " " + "-o" + " " + SplitExt(fn).0 + ".pdf"
  {
    var pdf := SplitExt(fn).0 + ".pdf";
    JoinFive(PandocWord, fn, MetaFlag, "-o", pdf, " ");
    Join([PandocWord, fn, MetaFlag, "-o", pdf], " ")
  }

  /** The lines of `build0.sh`, one per output file. */
  function PerFileLines(outFiles: seq<string>): (lines: seq<string>)
  {
    seq(|outFiles|, i requires 0 <= i < |outFiles| => PerFileCommand(outFiles[i]) + "\n")
  }

  /** The loop of `main` that writes `build0.sh`: one command and one newline per
      output file, in manifest order. */
  method WritePerFileScript(outFiles: seq<string>) returns (text: string)
    ensures text == Concat(PerFileLines(outFiles))
  {
    text := "";
    var i := 0;
    while i < |outFiles|
      invariant 0 <= i <= |outFiles|
      invariant text == Concat(PerFileLines(outFiles[..i]))
    {
      var buildCode := PerFileCommand(outFiles[i]);
      PerFileScriptStep(outFiles, i, text, buildCode);
      text := text + buildCode;
      text := text + "\n";
      i := i + 1;
    }
    assert outFiles[..i] == outFiles;
  }

  /** Writing command `i` and then a newline extends `build0.sh` by line `i`. */
  lemma PerFileScriptStep(outFiles: seq<string>, i: nat, text: string, buildCode: string)
    requires i < |outFiles| && buildCode == PerFileCommand(outFiles[i])
    requires text == Concat(PerFileLines(outFiles[..i]))
    ensures text + buildCode + "\n" == Concat(PerFileLines(outFiles[..i + 1]))
  {
    var line := buildCode + "\n";
    assert outFiles[..i + 1] == outFiles[..i] + [outFiles[i]];
    PerFileLinesAppend(outFiles[..i], outFiles[i]);
    ConcatAppend(PerFileLines(outFiles[..i]), line);
    AppendAssoc(text, buildCode, "\n");
  }

  lemma PerFileLinesAppend(outFiles: seq<string>, fn: string)
    ensures PerFileLines(outFiles + [fn]) == PerFileLines(outFiles) + [PerFileCommand(fn) + "\n"]
  {
  }

  const CombinedHead: string := "pandoc --toc -V documentclass=report"

  /** The single command of `build.sh`: all output files in one render with a table
      of contents and the report document class, and no trailing newline. */
  function CombinedScript(outFiles: seq<string>): (script: string)
    ensures script == CombinedHead + " " + Join(outFiles, " ") + " " + MetaFlag + " " + OutputFlag
  {
    var all := Join(outFiles, " ");
    JoinFour(CombinedHead, all, MetaFlag, OutputFlag, " ");
    Join([CombinedHead, all, MetaFlag, OutputFlag], " ")
  }

  /** Where output file `i` is named in `build.sh`. */
  function CombinedPosition(outFiles: seq<string>, i: nat): (pos: nat)
    requires i < |outFiles|
  {
    |CombinedHead| + 1 + JoinOffset(outFiles, " ", i)
  }

  /** Where output file `i` is named in `build0.sh`: just past `pandoc  ` on line `i`. */
  function PerFilePosition(outFiles: seq<string>, i: nat): (pos: nat)
    requires i < |outFiles|
  {
    ConcatOffset(PerFileLines(outFiles), i) + |PandocWord + " "|
  }

  /** `build.sh` names output file `i` at `CombinedPosition`. */
  lemma CombinedScriptNamesFile(outFiles: seq<string>, i: nat)
    requires i < |outFiles|
    ensures var p, fn := CombinedPosition(outFiles, i), outFiles[i];
      p + |fn| <= |CombinedScript(outFiles)| && CombinedScript(outFiles)[p..p + |fn|] == fn
  {
    var fn := outFiles[i];
    var joined := Join(outFiles, " ");
    var o := JoinOffset(outFiles, " ", i);
    JoinAt(outFiles, " ", i);
    var pre := CombinedHead + " ";
    var post := " " + MetaFlag + " " + OutputFlag;
    assert CombinedScript(outFiles) == pre + joined + post;
    assert (pre + joined + post)[|pre| + o..|pre| + o + |fn|] == joined[o..o + |fn|];
  }

  /** `build0.sh` names output file `i` at `PerFilePosition`, on line `i`. */
  lemma PerFileScriptNamesFile(outFiles: seq<string>, i: nat)
    requires i < |outFiles|
    ensures var p, fn := PerFilePosition(outFiles, i), outFiles[i];
      var text := Concat(PerFileLines(outFiles));
      p + |fn| <= |text| && text[p..p + |fn|] == fn
  {
    var fn := outFiles[i];
    var pdf := SplitExt(fn).0 + ".pdf";
    CommandRegroup(PandocWord, " ", fn, MetaFlag, "-o", pdf, "\n");
    ConcatAtPart(PerFileLines(outFiles), i, PandocWord + " ", fn,
                 " " + MetaFlag + " " + "-o" + " " + pdf + "\n");
  }

  /** Regroups a concatenation of the command's pieces around the file name. */
  lemma CommandRegroup(p: string, sp: string, fn: string, m: string, o: string, pdf: string, nl: string)
    ensures p + sp + fn + sp + m + sp + o + sp + pdf + nl == (p + sp) + fn + (sp + m + sp + o + sp + pdf + nl)
  {
  }

  /** Both scripts name the output files in the same order, the manifest's. */
  lemma ScriptsKeepManifestOrder(outFiles: seq<string>, i: nat, j: nat)
    requires i < j < |outFiles|
    ensures CombinedPosition(outFiles, i) + |outFiles[i]| < CombinedPosition(outFiles, j)
    ensures PerFilePosition(outFiles, i) + |outFiles[i]| < PerFilePosition(outFiles, j)
  {
    JoinOffsetIncreasing(outFiles, " ", i, j);
    ConcatOffsetIncreasing(PerFileLines(outFiles), i, j);
  }

  // The whole run

  /** Manifest entry for source file `file`: its short name, its destination name
      and the markdown file written there from its lines. */
  predicate ManifestEntry(file: string, root: string, dst: string, lines: seq<string>,
                          srcName: string, outFile: string, w: FileWrite)
  {
    && srcName == RemoveRoot(file, root)
    && outFile == DestName(file, root, dst)
    && w == FileWrite(outFile, Concat(Wrapped(file, srcName, lines)))
  }

  /** The loop of `main` over the sorted source files: converts each one, with
      `readLines` standing for the lines `readlines` returns, and appends its short
      name, its destination name and the file written to the manifest. */
  method BuildManifest(files: seq<string>, root: string, dst: string, readLines: string -> seq<string>)
    returns (srcNames: seq<string>, outFiles: seq<string>, written: seq<FileWrite>)
    ensures |srcNames| == |files| && |outFiles| == |files| && |written| == |files|
    ensures forall i | 0 <= i < |files| ::
      && srcNames[i] == RemoveRoot(files[i], root)
      && outFiles[i] == DestName(files[i], root, dst)
      && written[i] == FileWrite(outFiles[i], Concat(Wrapped(files[i], srcNames[i], readLines(files[i]))))
  {
    srcNames, outFiles, written := [], [], [];
    var i := 0;
    while i < |files|
      invariant 0 <= i <= |files|
      invariant |srcNames| == i && |outFiles| == i && |written| == i
      invariant forall k | 0 <= k < i ::
        ManifestEntry(files[k], root, dst, readLines(files[k]), srcNames[k], outFiles[k], written[k])
    {
      var fn := files[i];
      var srcFn, outFn, texts := ConvertSource2Md(fn, root, dst, readLines(fn));
      assert ManifestEntry(fn, root, dst, readLines(fn), srcFn, outFn, FileWrite(outFn, Concat(texts)));
      srcNames := srcNames + [srcFn];
      outFiles := outFiles + [outFn];
      written := written + [FileWrite(outFn, Concat(texts))];
      i := i + 1;
    }
    forall k | 0 <= k < |files|
      ensures && srcNames[k] == RemoveRoot(files[k], root)
              && outFiles[k] == DestName(files[k], root, dst)
              && written[k] == FileWrite(outFiles[k], Concat(Wrapped(files[k], srcNames[k], readLines(files[k]))))
    {
      assert ManifestEntry(files[k], root, dst, readLines(files[k]), srcNames[k], outFiles[k], written[k]);
    }
  }

  /** `main(root, dst)`: selects and converts the source files, then copies
      `meta.yaml` (whose text is `meta`, or `None` when it is missing: the copy
      raises and the run stops after the markdown files) and writes the two build
      scripts, each copied verbatim to a `.bat` twin. `ok` tells whether the run
      got to the end. */
  method Run(root: string, dst: string, candidates: seq<string>, isText: string -> bool,
             readLines: string -> seq<string>, meta: Option<string>)
    returns (files: seq<string>, srcNames: seq<string>, outFiles: seq<string>,
             written: seq<FileWrite>, ok: bool)
    ensures Sorted(files) && multiset(files) == multiset(Filter(candidates, isText))
    ensures |srcNames| == |files| && |outFiles| == |files|
    ensures ok <==> meta.Some?
    ensures |written| == |files| + (if ok then 5 else 0)
    ensures forall i | 0 <= i < |files| ::
      && srcNames[i] == RemoveRoot(files[i], root)
      && outFiles[i] == DestName(files[i], root, dst)
      && written[i] == FileWrite(outFiles[i], Concat(Wrapped(files[i], srcNames[i], readLines(files[i]))))
    ensures ok ==> written[|files|..] == [
      FileWrite(JoinPath(dst, "meta.yaml"), meta.value),
      FileWrite(JoinPath(dst, "build0.sh"), Concat(PerFileLines(outFiles))),
      FileWrite(JoinPath(dst, "build0.bat"), Concat(PerFileLines(outFiles))),
      FileWrite(JoinPath(dst, "build.sh"), CombinedScript(outFiles)),
      FileWrite(JoinPath(dst, "build.bat"), CombinedScript(outFiles))]
  {
    files := SourceFiles(candidates, isText);
    var manifest;
    srcNames, outFiles, manifest := BuildManifest(files, root, dst, readLines);
    written := manifest;
    if meta.None? {
      ok := false;
      return;
    }
    var metaCopy := FileWrite(JoinPath(dst, "meta.yaml"), meta.value);

    var buildScript := JoinPath(dst, "build0.sh");
    var perFile := WritePerFileScript(outFiles);
    TwinNames(dst);
    var perFileBat := FileWrite(SplitExt(buildScript).0 + ".bat", perFile);

    var combinedScript := JoinPath(dst, "build.sh");
    var combined := CombinedScript(outFiles);
    var combinedBat := FileWrite(SplitExt(combinedScript).0 + ".bat", combined);

    var tail := [metaCopy, FileWrite(buildScript, perFile), perFileBat,
                 FileWrite(combinedScript, combined), combinedBat];
    written := manifest + tail;
    assert written[|files|..] == tail;
    ok := true;
  }

  /** The twins of the two build scripts are `build0.bat` and `build.bat`. */
  lemma TwinNames(dst: string)
    ensures SplitExt(JoinPath(dst, "build0.sh")).0 + ".bat" == JoinPath(dst, "build0.bat")
    ensures SplitExt(JoinPath(dst, "build.sh")).0 + ".bat" == JoinPath(dst, "build.bat")
  {
    TwinName(dst, "build0", "build0.sh", "build0.bat");
    TwinName(dst, "build", "build.sh", "build.bat");
  }

  /** The `.bat` twin of `dst/<name>.sh` is `dst/<name>.bat`. */
  lemma TwinName(dst: string, name: string, script: string, twin: string)
    requires script == name + ".sh" && twin == name + ".bat"
    requires |name| > 0 && name[0] != '.' && forall k | 0 <= k < |name| :: name[k] != '/'
    ensures SplitExt(JoinPath(dst, script)).0 + ".bat" == JoinPath(dst, twin)
  {
    assert FinalHasNonDot(name) by {
      assert name[0] != '.' && name[0] != '/' && forall m | 0 < m < |name| :: name[m] != '/';
    }
    SplitExtOfJoined(dst, name, ".sh");
  }

  /** The name `build0.sh` gets for a PDF is the output file's own name with `.md`
      replaced by `.pdf`, whenever the short name's last component is not dots only. */
  lemma PdfNameOfOutput(fileName: string, root: string, dest: string)
    requires FinalHasNonDot(SplitExt(RemoveRoot(fileName, root)).0)
    ensures SplitExt(DestName(fileName, root, dest)).0 + ".pdf"
      == JoinPath(dest, SplitExt(RemoveRoot(fileName, root)).0) + ".pdf"
  {
    var stem := SplitExt(RemoveRoot(fileName, root)).0;
    var md := ".md";
    assert DestName(fileName, root, dest) == JoinPath(dest, stem + md);
    assert md == ['.', 'm', 'd'];
    forall k | 1 <= k < |md| ensures md[k] != '.' && md[k] != '/' {
      assert k == 1 || k == 2;
    }
    SplitExtOfJoined(dest, stem, md);
  }
}
