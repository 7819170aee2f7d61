# codebook, modelled in Dafny

codebook turns a tree of source files into markdown for pandoc. It walks the
source root, keeps the entries that open as text, and sorts them. For each one
it builds a short name by deleting `root/` from the path. If the file name does
not end in `.md`, it wraps the file's lines in a heading and a fenced code block
whose tag comes from a fixed extension table. It writes the result to
`dst/<short name without extension>.md`. Finally it copies `meta.yaml` into
`dst` and writes two build scripts. `build0.sh` has one pandoc command per
output file. `build.sh` has one pandoc command over all output files, with a
table of contents. Each script is copied byte for byte to a `.bat` twin.

The model has four modules:

- `Strings` (strings.dfy): the Python string operations the tool uses, each
  with its meaning. These are `str.lower` on ASCII letters, `str.endswith`,
  `sep.join`, `''.join`, `str.replace(pat, '')` (as `RemoveAll`),
  `str.split` (as `Split`, used only as a reference), and Python's
  code-point order on strings (`StrLe`), proved to be a total order.
- `Paths` (paths.dfy): `os.path.splitext` as `SplitExt`, proved equal to an
  independent description of a well-formed stem/extension split. Also
  `Path.joinpath(...).as_posix()` as `JoinPath`.
- `Sorting` (sorting.dfy): the list comprehension that filters candidates
  (`Filter`), and `list.sort()` as an in-place insertion sort on an array.
  The sort is proved to leave the array sorted and a permutation of its
  input. Two sorted permutations of the same strings are proved equal.
- `Codebook` (codebook.dfy): the extension table and `getCodeLanguage`,
  `removeRoot`, `convertSource2Md`, `getSourceFiles`, the two build-script
  texts and `main`. `convertSource2Md` rebuilds its list of lines step by step,
  through `insert(0, …)`, `insert(1, …)` and `append`. `main` and the
  `build0.sh` writer are loops with invariants.

In the model, a run takes its inputs as values:

- the entries the recursive glob found, `candidates`;
- the text-file probe, `isText`;
- the lines of each file, `readLines`;
- the text of `meta.yaml`, or `None` when it is missing.

It returns the sorted files, the manifest lists `src_names` and `out_files`,
and every file written, as (path, text) pairs in write order.

Some behaviour of the code is kept as written, and the lemmas show it:

- `removeRoot` deletes every non-overlapping occurrence of `root/`, leftmost
  first, not only a leading one (`RemoveRoot`, `RemoveRootPieces`). For
  example, `src/lib/src/x.py` under root `src` becomes `lib/x.py`. So the short
  name is not the path relative to the root when `root/` occurs again inside
  it.
- The `.md` pass-through is a case-sensitive test on the whole file name, not
  on the extension `splitext` returns (codebook.py:33). So `X.MD` is wrapped
  (`UpperCaseMdIsWrapped`).
- The closing fence is appended as its own list element. When a file's last
  line has no newline, the written text therefore has the fence on that line
  (`WrappedText`).
- The `.bat` files are byte copies of the `.sh` scripts, not scripts in batch
  syntax.

## Model

| member | source | states |
|---|---|---|
| `Codebook.ExtLangMapShape` | codebook.py:7-17 | `ext_lang_map` (the constant `ExtLangMap`) maps nine extensions to tags. Every key is a dot followed by at least one character, as `splitext` returns, and no tag is empty. So an empty tag from the lookup always means the extension is not in the table. |
| `Codebook.CodeLanguage` | codebook.py:50-55 | The tag is non-empty exactly when the lower-cased extension is a table key, and it is then that key's entry; otherwise it is `''`. No extension makes it fail. |
| `Codebook.CodeLanguageIgnoresCase` | codebook.py:53 | An extension and its lower-cased form get the same tag. |
| `Codebook.CodeLanguageExamples` | codebook.py:7-17 | `.PY` gives `python`, `.rs` gives `rust`, and `.go`, which is not in the table, gives `''`. |
| `Codebook.RemoveRoot` | codebook.py:68-71 | The short name is the concatenation of the pieces of the path between the occurrences of `root/`. |
| `Codebook.RemoveRootPieces` | codebook.py:71 | Those pieces, joined back with `root/`, give the path, and no piece contains `root/`. The first piece ends at the leftmost occurrence of `root/`, and the other pieces are the pieces of what follows that occurrence. So the occurrences are deleted left to right without overlap, not only a leading one. |
| `Codebook.RemoveRootAbsent` | codebook.py:71 | A path that does not contain `root/` is returned unchanged. |
| `Codebook.RemoveRootPrefix` | codebook.py:70-71 | A path that contains `root/` only as its prefix loses exactly that prefix. |
| `Codebook.Heading` | codebook.py:34 | `'\n# {}\n'.format(short_name)`: a blank line, then `# ` and the short name on a line of its own. Its layout is proved in `HeadingLayout`. |
| `Codebook.HeadingLayout` | codebook.py:34 | The heading is four characters longer than the short name. It starts with a newline, `#` and a space, holds the short name, and ends with a newline. |
| `Codebook.FenceOpen` | codebook.py:35 | `'```{}\n'.format(lang)`: three backticks, the language tag, then a newline. Its layout is proved in `FenceOpenLayout`. |
| `Codebook.FenceOpenLayout` | codebook.py:35 | The opening fence is four characters longer than the tag: three backticks, the tag, then a newline. |
| `Codebook.FenceClose` | codebook.py:36 | The closing fence is the opening fence with an empty tag. |
| `Codebook.Wrapped` | codebook.py:33-36 | The lines written for a file. They are the source lines unchanged when the file name ends in `.md`. Otherwise they are the heading, the tagged fence, the lines, and the closing fence. `ConvertSource2Md` is proved to compute this list by its inserts and append, and `WrappedText` states the resulting text. |
| `Codebook.InsertFront` | codebook.py:34 | `insert(0, x)` puts `x` in front of the list. |
| `Codebook.InsertSecond` | codebook.py:35 | `insert(1, y)` on a list that starts with `x` puts `y` right after `x`. |
| `Codebook.DestName` | codebook.py:38-39 | The destination name is `dest`, a slash, and the short name's stem with `.md` added. It always starts with `dest/` and always ends in `.md`. |
| `Codebook.Insert` | codebook.py:34-35 | `list.insert(i, x)` puts `x` at `i` (or at the end if `i` is past it), keeps the elements before `i`, and shifts the rest one place right. |
| `Codebook.ConvertSource2Md` | codebook.py:26-47 | Returns the short name, `dest/stem.md` (which always ends in `.md`) and the written lines. For a name ending in `.md` the lines are unchanged. Otherwise there are N+3 lines: heading, fence tagged with the extension's language, the N source lines unchanged and in order at 2..N+1, and the closing fence. |
| `Codebook.UpperCaseMdIsWrapped` | codebook.py:33 | The `.md` test is case-sensitive, so a file named `….MD` is wrapped into N+3 lines. |
| `Codebook.WrappedText` | codebook.py:33-45 | The text written for a wrapped file is the heading, the fence line, the file's own text and the closing fence, with nothing added between them. |
| `Codebook.SourceFiles` | codebook.py:19-24 | The selected files are sorted ascending in Python's string order. They are a permutation of the candidates that pass the text probe, so they hold exactly those candidates. |
| `Codebook.SourceOrderDeterministic` | codebook.py:22-23 | Any two sorted selections from two orderings of the same candidates are equal, so the walk's order does not matter. |
| `Codebook.PerFileCommand` | codebook.py:88-89 | The command for one file is `pandoc`, two spaces, the file, `--metadata-file=meta.yaml -o`, and the file's `splitext` stem plus `.pdf`. |
| `Codebook.PerFileLines` | codebook.py:87-91 | The lines of `build0.sh`: for each output file in manifest order, its command followed by a newline. `WritePerFileScript` is proved to write their concatenation, and `PerFileScriptNamesFile` locates each file in it. |
| `Codebook.WritePerFileScript` | codebook.py:86-91 | `build0.sh` is the concatenation of one command line plus newline per output file, in manifest order. |
| `Codebook.CombinedScript` | codebook.py:94-95 | `build.sh` is one command with no trailing newline: `pandoc --toc -V documentclass=report`, the output files joined by spaces, then `--metadata-file=meta.yaml -o output.pdf`. |
| `Codebook.CombinedScriptNamesFile` | codebook.py:94-95 | Every output file appears in `build.sh` at its join position. |
| `Codebook.PerFileScriptNamesFile` | codebook.py:87-91 | Every output file `i` appears in `build0.sh` on line `i`, just after `pandoc` and two spaces. |
| `Codebook.ScriptsKeepManifestOrder` | codebook.py:87-95 | In both scripts, output file `i` ends before output file `j` begins whenever `i < j`. So both scripts list the files in the same order. |
| `Codebook.ManifestEntry` | codebook.py:77-79 | Entry `i` of the manifest for a source file: its short name is `RemoveRoot` of the file, its output name is `DestName`, and its write puts the text of `Wrapped` at that name. |
| `Codebook.BuildManifest` | codebook.py:74-79 | `src_names`, `out_files` and the written markdown files have one entry per sorted source file. Entry `i` of each comes from file `i`. |
| `Codebook.Run` | codebook.py:73-99 | The files are sorted and selected by the probe. The manifest and the markdown writes are as in `BuildManifest`. When `meta.yaml` is missing the run stops after the markdown files. Otherwise it then writes `meta.yaml`, `build0.sh`, an identical `build0.bat`, `build.sh` and an identical `build.bat`, in that order. |
| `Codebook.TwinNames` | codebook.py:92-99 | The `.bat` copies go to `dst/build0.bat` and `dst/build.bat`. |
| `Codebook.TwinName` | codebook.py:92 | `splitext(dst/<name>.sh)[0] + '.bat'` is `dst/<name>.bat` for a plain name. |
| `Codebook.PdfNameOfOutput` | codebook.py:88 | The PDF name in `build0.sh` is the output file's name with `.md` replaced by `.pdf`, as long as the short name's stem does not end in a component made only of dots. |
| `Paths.SplitExt` | codebook.py:30 | `stem + ext` is the whole path. |
| `Paths.SplitExtSound` | codebook.py:30 | A non-empty extension from `SplitExt` is a dot with no further dot or slash after it, and the stem's last component holds a character other than a dot. |
| `Paths.SplitExtComplete` | codebook.py:30 | Every split of that form is the one `SplitExt` returns, so the split is unique. |
| `Paths.SplitExtOfJoined` | codebook.py:88 | `splitext(dir/name + ext)` gives back `dir/name` and `ext` for a well-formed extension. |
| `Paths.JoinPath` | codebook.py:38-39 | The joined path is the directory, one slash, then the name. |
| `Strings.EndsWith` | codebook.py:33 | `str.endswith(suffix)`: the suffix is no longer than the string and equals its last characters. `EndsWithAt` states the same thing character by character. |
| `Strings.EndsWithAt` | codebook.py:33 | `EndsWith` holds exactly when the suffix fits and each of its characters equals the matching character at the end of the string. |
| `Strings.Join` | codebook.py:94-95 | `sep.join(xs)`, used here and at line 89: the elements in order, with one separator between neighbours and none at the ends. `JoinAt`, `JoinOffsetIncreasing`, `JoinFour` and `JoinFive` state where each element lands. |
| `Strings.Concat` | codebook.py:90-91 | `''.join(xs)`: what successive `write` calls leave in a file, as `writelines` does at line 45, which is the elements in order with nothing between them. `ConcatAt`, `ConcatAppend` and `ConcatSplice` state its layout. |
| `Strings.RemoveAll` | codebook.py:71 | `s.replace(pat, '')`: it deletes the non-overlapping occurrences of `pat`, leftmost first, and never lengthens the string. `ConcatSplit` proves it equal to `Concat(Split(s, pat))`. |
| `Strings.StrLe` | codebook.py:23 | Python's `<=` on strings, lexicographic by code point. A prefix is always below. `StrLeRefl`, `StrLeAntisym`, `StrLeTrans` and `StrLeTotal` prove it a total order. |
| `Strings.ToLower` | codebook.py:53 | Lower-casing keeps the length and maps each character through the ASCII lower-case mapping. |
| `Strings.ToLowerIdempotent` | codebook.py:53 | Lower-casing twice is the same as lower-casing once. |
| `Strings.JoinSplit` | codebook.py:71 | Splitting on the pattern and joining back with it gives the original string. |
| `Strings.ConcatSplit` | codebook.py:71 | `replace(pat, '')` is the concatenation of the pieces of `split(pat)`. |
| `Strings.SplitPiecesFree` | codebook.py:71 | No piece of a split contains the pattern. |
| `Strings.SplitHeadNoEarlier` | codebook.py:71 | No occurrence of the pattern starts inside the first piece of a split. |
| `Strings.SplitHeadThenOccurs` | codebook.py:71 | When a split has more than one piece, an occurrence of the pattern starts right after the first piece. |
| `Strings.SplitTail` | codebook.py:71 | The pieces after the first are the split of what follows that first occurrence. |
| `Strings.RemoveAllAbsent` | codebook.py:71 | `replace` leaves a string without the pattern unchanged. |
| `Strings.RemoveAllOnlyPrefix` | codebook.py:71 | When the pattern occurs only as the prefix, `replace` strips exactly that prefix. |
| `Strings.StrLeTotal` | codebook.py:23 | Any two strings are comparable in Python's order. |
| `Strings.StrLeAntisym` | codebook.py:23 | Two strings that are each `<=` the other are equal. |
| `Strings.StrLeTrans` | codebook.py:23 | The order is transitive. |
| `Strings.StrLeRefl` | codebook.py:23 | The order is reflexive. |
| `Strings.JoinAt` | codebook.py:94 | `' '.join(xs)` holds `xs[i]` at its join offset. |
| `Strings.JoinOffsetIncreasing` | codebook.py:94 | In a join with a non-empty separator, later elements start strictly after earlier ones end. |
| `Strings.ConcatAt` | codebook.py:90-91 | The concatenation of the written lines holds line `i` at its offset. |
| `Strings.ConcatOffsetIncreasing` | codebook.py:90-91 | Later lines of a concatenation start no earlier than earlier ones end. |
| `Strings.ConcatAppend` | codebook.py:90-91 | Writing one more piece appends exactly that piece to the file's text. |
| `Strings.ConcatSplice` | codebook.py:45 | `writelines` of two lists one after the other writes the two texts one after the other. |
| `Strings.JoinFive` | codebook.py:89 | A five-element join puts one separator between neighbouring elements. |
| `Strings.JoinFour` | codebook.py:95 | A four-element join puts one separator between neighbouring elements. |
| `Sorting.Filter` | codebook.py:22 | The comprehension keeps exactly the candidates that pass the predicate, and it never grows the list. |
| `Sorting.FilterCount` | codebook.py:22 | A kept candidate is kept as often as it occurs; a rejected one is dropped entirely. |
| `Sorting.FilterPermutation` | codebook.py:22 | Filtering two orderings of the same candidates keeps the same multiset. |
| `Sorting.SortInPlace` | codebook.py:23 | `list.sort()` leaves the array ascending and a permutation of what it held. |
| `Sorting.InsertLast` | codebook.py:23 | One insertion step moves the next element into the ascending prefix, keeping the array's contents. |
| `Sorting.SortedUnique` | codebook.py:23 | Two ascending sequences with the same elements are equal. |

## Left out

- The directory walk (`glob` with `recursive=True`) is not modelled. Its result is the input `candidates`.
- `isTextFile` (a UTF-8 decode probe that swallows every error and prints `IGNORE:`) is not modelled. It is the predicate parameter `isText`.
- Reading files is not modelled: `open(..., encoding='ascii', errors='ignore')` and `readlines()` become the parameter `readLines`. Dropping non-ASCII characters on read and on write is codec behaviour and is assumed away.
- `Path(...).as_posix()` normalisation is not modelled: collapsing `./`, repeated or trailing slashes, and a name that is absolute replacing the directory in `joinpath`. Paths are taken as POSIX strings already, and `JoinPath` is `dir + "/" + name`.
- Directory creation (`os.makedirs`), the `print` progress lines and `argparse` handling are not modelled.
- Failures while writing are not modelled. They abort the Python run; the model assumes every write succeeds. The one failure that is modelled is a missing `meta.yaml`.
- `shutil.copyfile` is modelled as a write of the same text to the new path.
- Running pandoc is not part of the tool. The model only produces the command text.
- `Strings.ToLower`: maps only the ASCII capitals, while Python's `str.lower` is Unicode-wide. For the extension lookup this gives the same tag, because the table keys hold only `.` and the letters a b c h j p r s v y. The only non-ASCII characters whose Python lower case contains an ASCII letter are U+0130 (to `i` plus a combining dot) and U+212A (to `k`), and no key contains `i` or `k`. This reasoning is stated here, not proved.
- `Strings.StrLe`: orders Dafny characters, which are Unicode scalar values. Python strings can also hold lone surrogates (for example from undecodable file names), and the model does not cover those.
