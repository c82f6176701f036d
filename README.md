# Google Photos sidecar matcher, modelled in Dafny

`json_matcher.py` reads the exiftool inventory of a Google Photos export. It is a
table with one row per file, holding `SourceFile`, `FileName` and
`DateTimeOriginal`. The script adds a `JsonFile` column and fills it for every
image that has no capture time. The value is the path of the `.json` sidecar
that Google Takeout wrote for that image. It then keeps only those images.

A sidecar is found from file names alone, in three steps:

- Three candidate suffixes are predicted from the image's `FileName`.
  - The first depends on a naming pattern: a `(n)` duplicate marker moves behind
    the extension; an `-edited` copy uses its original's sidecar; otherwise it is
    the whole name plus `.json`.
  - The second is the name without its extension, plus `.json`.
  - The third is the whole name plus `.json`.
- The candidates are tried in order. A row is a hit when its path starts with
  the image's `dirname` and ends with the candidate.
- The first candidate with any hit wins, and its first hit in table order is
  returned.

The project:

- `wrappers.dfy` holds `Option`. A missing table cell (NaN) is `None`.
- `pystr.dfy` (module `PyStr`) holds the Python `str` operations the script
  uses: `startswith`, `endswith`, `split` with a one-character separator,
  `s[:-k]` and `lower`. `rfind` and `rstrip` serve `os.path` below; `join`
  appears only to state that `split` loses nothing.
- `posixpath.dfy` (module `PosixPath`) holds `os.path.splitext`, `dirname` and
  `basename`, as CPython's `posixpath` defines them.
- `json_matcher.dfy` (module `JsonMatcher`) holds `find_json_file`: its guards,
  the candidate names, the ordered probes and the first-row choice.
- `inventory.dfy` (module `Inventory`) holds the driver. The table is an
  `array<Row>` that is updated in place:
  - line 23 clears the `JsonFile` column;
  - line 90 annotates every row;
  - line 93 filters the rows.
  Each step is proved against a function on the row sequence, and lemmas state
  what the whole run produces.
- `json_matcher_examples.dfy` (module `JsonMatcherExamples`) holds the worked
  names from the source's comments and small inventories, worked through end to
  end by lemmas.

### Behaviour a reader might not expect

- The candidates are not de-duplicated (json_matcher.py:68-84). With neither
  marker, the first and third candidates are the same string, and that suffix
  is probed twice (`DefaultCandidate`).
- The directory test is a plain string prefix, not a path-component test
  (json_matcher.py:68). A sidecar in a sibling directory whose name extends
  the photo's directory can match (`SiblingDirectoryScenario`). So can a
  sidecar in a sub-directory.
- `basename[:-3]` drops exactly three characters (json_matcher.py:53). With a
  counter longer than one character, the `(` and all but the last two counter
  characters stay in front of the extension: `IMG_1667(12).jpg` is probed first
  as `IMG_1667(.jpg(12).json` (`DuplicateMarkerCandidate`,
  `MultiDigitCounterExample`).
- When several rows match one candidate, the answer is the first of them in
  table order (`iloc[0]`, json_matcher.py:70).
- `df.apply` computes the whole column before assigning it (json_matcher.py:90).
  Each row is therefore searched against the table as it stood before that
  line (`ApplyFindJsonFile` works on a snapshot). The column was cleared at
  line 23, so whatever the loaded CSV held there never short-circuits the
  search (`AnnotationAfterClearing`).

## Model

| member | source | states |
|---|---|---|
| JsonMatcher.FindJsonFile | json_matcher.py:26-35 | A row that already has a `JsonFile` gets it back unchanged; a row with a capture time, or whose path does not end in `.jpg`/`.jpeg`/`.png` ignoring case, gets `None` |
| JsonMatcher.IsImage | json_matcher.py:34 | The path, lower-cased, ends with `.jpg`, `.jpeg` or `.png` (also the first half of the line-93 mask) |
| JsonMatcher.Eligible | json_matcher.py:32-34 | The row is searched for: no capture time, and an image path (also the line-93 mask) |
| JsonMatcher.GuardsSkipSearch | json_matcher.py:26-35 | A row stopped by a guard gets the same answer whatever the table holds |
| JsonMatcher.LowerCaseImage | json_matcher.py:34 | A path ending in `.jpg`, `.jpeg` or `.png` passes the image test |
| JsonMatcher.IsImageIgnoresCase | json_matcher.py:34 | The image test gives the same answer on the lower-cased path |
| JsonMatcher.ImageTestIgnoresCase | json_matcher.py:34 | A path is an image exactly when it ends with `.jpg`, `.jpeg` or `.png` ignoring case |
| JsonMatcher.SidecarIsNotImage | json_matcher.py:34 | A path ending in `.json` never passes the image test |
| JsonMatcher.ImageNeverHits | json_matcher.py:34-84 | An image path never ends with a `.json` candidate, so a photo is never taken for its own sidecar |
| PosixPath.Splitext | json_matcher.py:39 | `basename + ext` is the file name; `ext` is empty or starts with `.` and holds no other `.` or `/` |
| PosixPath.SplitextKeepsStem | json_matcher.py:39 | When an extension is split off, what remains of the last segment is not all dots |
| PosixPath.SplitextNoExtension | json_matcher.py:39 | No extension is split off only when the last segment has no `.` or only dots before its last `.` |
| PosixPath.SplitextOfName | json_matcher.py:39 | `stem + ext` splits into exactly `stem` and `ext` when `ext` is a proper extension |
| PosixPath.ExtensionAfterLastDot | json_matcher.py:39 | The text from the last `.` of the last segment onward is an extension |
| PosixPath.Dirname | json_matcher.py:38 | The directory is a prefix of the path; it is empty exactly when the path has no `/`; it ends in `/` only when it is all slashes |
| PosixPath.DirnameOfJoin | json_matcher.py:38 | The directory of `dir/name` is `dir` |
| PosixPath.DirnameThenBasename | json_matcher.py:38 | Directory and last segment together cover the path, with only slashes between them |
| PyStr.RFind | json_matcher.py:52 | The index of the last occurrence of the character, or -1 when it does not occur |
| PyStr.RFindIsLast | json_matcher.py:52 | An occurrence with none after it is the index `rfind` reports |
| PyStr.RFindSuffix | json_matcher.py:38-39 | Cutting off the front of a string shifts the index `rfind` reports, or leaves nothing to find |
| PyStr.RFindPrefix | json_matcher.py:38-39 | Cutting off the back of a string after the last occurrence does not move it |
| PyStr.Split | json_matcher.py:52 | `split` always yields at least one piece |
| PyStr.JoinSplit | json_matcher.py:52 | Joining the pieces of `split` with the separator gives back the string |
| PyStr.FirstPieceIsPrefix | json_matcher.py:52 | `split(sep)[0]` is the longest prefix free of the separator |
| PyStr.FirstPieceBeforeSep | json_matcher.py:52 | When the separator occurs, `split(sep)[0]` stops right before its first occurrence |
| PyStr.LastPieceIsSuffix | json_matcher.py:52 | `split(sep)[-1]` is the longest suffix free of the separator |
| PyStr.SplitLastPiece | json_matcher.py:52 | The last piece of `split` is the text after the last separator |
| PyStr.FirstPiece | json_matcher.py:52 | `s.split(sep)[0]`, characterised by `FirstPieceIsPrefix` |
| PyStr.LastPiece | json_matcher.py:52 | `s.split(sep)[-1]`, characterised by `LastPieceIsSuffix` and `SplitLastPiece` |
| PyStr.DropLast | json_matcher.py:53 | `s[:-k]` is a prefix of `s`, `k` characters shorter, or empty when `s` is shorter than `k` |
| PyStr.Lower | json_matcher.py:34 | Lower-casing keeps the length |
| PyStr.LowerIsCaseless | json_matcher.py:34 | The lower-cased string has no capital letter and agrees with the original ignoring case |
| PyStr.LowerChar | json_matcher.py:34 | A lower-cased character is not a capital and agrees with the original ignoring case |
| PyStr.LowerCharUnique | json_matcher.py:34 | Those two properties fix the lower-cased character |
| PyStr.LowerEndsWith | json_matcher.py:34 | The lower-cased string ends with a suffix without capitals exactly when the original ends with it ignoring case |
| PyStr.LowerKeepsSuffix | json_matcher.py:34 | Lower-casing keeps a suffix that has no capital letters |
| PyStr.RStrip | json_matcher.py:38 | `rstrip` leaves a prefix that does not end in the character, and strips only that character |
| JsonMatcher.AfterLastParen | json_matcher.py:51-52 | For a marked name, `split("(")[-1]` is the text after the last `(`; it holds the closing `)` and no `(` |
| JsonMatcher.HasDuplicateMarker | json_matcher.py:51 | The basename holds a `(` and ends with `)` |
| JsonMatcher.DuplicateCounter | json_matcher.py:52 | `basename.split("(")[-1].split(")")[0]`, characterised by `DuplicateCounterBetween` |
| JsonMatcher.DuplicateCounterBetween | json_matcher.py:51-52 | The counter `n` is the text between the last `(` and the first `)` after it, and holds neither parenthesis |
| JsonMatcher.CounterInsideLast | json_matcher.py:52 | The counter sits right after the last `(`, followed by `)` |
| JsonMatcher.CounterOfMarkedName | json_matcher.py:51-52 | `stem(n)` with no parenthesis in `n` fires the pattern and has counter `n`, whatever parentheses `stem` holds |
| JsonMatcher.DropMarker | json_matcher.py:53 | `basename[:-3]` of `stem(n)` is `stem` for a one-character counter, keeps `(` and all but the last two counter characters for a longer one, and eats into `stem` for an empty one |
| JsonMatcher.DuplicateMarkerCandidate | json_matcher.py:44-53 | For `stem(n).ext`, the primary candidate is `stem.ext(n).json` when `n` has one character, and `stem(` + all but the last two characters of `n` + `.ext(n).json` when it is longer |
| JsonMatcher.EditedCandidate | json_matcher.py:54-58 | `stem-edited.ext` is looked for first as `stem.ext.json` |
| JsonMatcher.DefaultCandidate | json_matcher.py:59-62 | With neither marker, the primary candidate is the file name plus `.json`, the same string as the third candidate |
| JsonMatcher.PrimaryCandidate | json_matcher.py:44-62 | The primary candidate always ends in `.json` |
| JsonMatcher.Candidates | json_matcher.py:68-84 | Exactly three suffixes, in the order primary, `basename.json`, `basename + ext + .json` (which is the file name plus `.json`); all end in `.json` |
| JsonMatcher.CandidateIsSidecarName | json_matcher.py:68-84 | Every candidate ends in `.json` |
| PyStr.StartsWith | json_matcher.py:68 | `str.startswith`: the prefix is no longer than the string and equals its first characters; also the pandas `.str.startswith` of lines 68, 75 and 82 |
| PyStr.EndsWith | json_matcher.py:51-57 | `str.endswith`: the suffix is no longer than the string and equals its last characters; also the pandas `.str.endswith` of lines 68, 75 and 82 |
| JsonMatcher.NoHit | json_matcher.py:68-83 | `len(json_rows) == 0` at lines 69, 76 and 83: no row's path starts with the directory and ends with the suffix |
| JsonMatcher.RowMatches | json_matcher.py:68 | The row's path starts with the directory and ends with the candidate, as plain strings |
| JsonMatcher.FirstHit | json_matcher.py:68-70 | No index exactly when no row starts with the directory and ends with the suffix; otherwise the first such row in table order (`iloc[0]`) |
| JsonMatcher.Probe | json_matcher.py:68-84 | None exactly when no candidate has a hit; otherwise the first candidate with a hit, every earlier one having none, and that candidate's first hit |
| JsonMatcher.FindJsonFileFirstHit | json_matcher.py:64-84 | If candidate `k` is the first with a hit and row `j` is its first hit, the answer is row `j`'s path |
| JsonMatcher.FindJsonFileNone | json_matcher.py:64-87 | An eligible row with no sidecar gets `None` exactly when no row's path starts with its `dirname` string and ends with one of the three candidates |
| JsonMatcher.FindJsonFileFound | json_matcher.py:64-84 | A found sidecar is the path of a table row; it starts with the photo's `dirname` as a plain string prefix, ends with one of the candidates, and ends in `.json` |
| JsonMatcher.Paths | json_matcher.py:68 | The `SourceFile` column has one entry per row |
| JsonMatcher.FindJsonFileReadsOnlyPaths | json_matcher.py:68-84 | Two tables with the same `SourceFile` column give every row the same answer |
| JsonMatcher.FindJsonFileIdempotent | json_matcher.py:28-29 | Searching again with the answer filled in returns the same answer |
| Inventory.Cleared | json_matcher.py:23 | Every `JsonFile` cell is missing and every other cell is unchanged |
| Inventory.AddJsonFileColumn | json_matcher.py:23 | Clearing the column in place leaves the array equal to `Cleared` of its old contents |
| Inventory.Annotated | json_matcher.py:90 | Each row's `JsonFile` is `find_json_file` of that row against the table as it stood before; no other cell changes |
| Inventory.WithSidecar | json_matcher.py:90 | The row with its `JsonFile` set to what `find_json_file` returns for it |
| Inventory.ApplyFindJsonFile | json_matcher.py:90 | Annotating in place, against a snapshot, leaves the array equal to `Annotated` of its old contents |
| Inventory.AnnotationAfterClearing | json_matcher.py:23-90 | After clearing, each row gets what `find_json_file` returns for it with no `JsonFile`, searched in the table as loaded |
| Inventory.AnnotatedClearedRow | json_matcher.py:23-90 | After clearing and annotating, a row is the loaded row with its freshly computed sidecar |
| Inventory.AnnotatedIdempotent | json_matcher.py:90 | Annotating an already annotated table changes nothing |
| Inventory.IneligibleRowsStayEmpty | json_matcher.py:23-90 | A row with a capture time, or one that is not an image, leaves the driver with no sidecar |
| Inventory.UnresolvedImages | json_matcher.py:93 | The filter keeps no more rows than it is given, and only images with no capture time |
| Inventory.UnresolvedImagesMembers | json_matcher.py:93 | A row is kept exactly when it is in the table, is an image, and has no capture time |
| Inventory.UnresolvedImagesAppend | json_matcher.py:93 | Filtering a concatenation filters each part and concatenates the results |
| Inventory.KeptRowPosition | json_matcher.py:93 | A kept row lands right after the kept rows that precede it in the table |
| Inventory.PrefixFilterGrows | json_matcher.py:93 | Filtering a longer prefix of the table never keeps fewer rows |
| Inventory.UnresolvedImagesKeepOrder | json_matcher.py:93 | Two kept rows come out in their table order |
| Inventory.MatchInventory | json_matcher.py:23-93 | Running lines 23, 90 and 93 leaves the array cleared and annotated, and returns the filtered table |
| Inventory.MatchedInventory | json_matcher.py:23-93 | The table the script writes: the loaded rows cleared, annotated and filtered; characterised by `MatchedInventoryRows` and `MatchedInventorySidecars` |
| Inventory.MatchedInventorySidecars | json_matcher.py:89-93 | Every output row is an image with no capture time; a sidecar it carries is a loaded path that starts with the photo's `dirname` as a plain string prefix (a sibling such as `Photos 2020 (1)/` also passes), ends in `.json`, and is not an image |
| Inventory.AnnotatedSidecar | json_matcher.py:89-90 | A sidecar the driver writes is a loaded path that starts with the photo's `dirname` as a plain string prefix (a sibling such as `Photos 2020 (1)/` also passes), ends in `.json`, and is not an image |
| Inventory.MatchedInventoryRows | json_matcher.py:89-93 | A row is in the output exactly when it is an eligible loaded row carrying the sidecar computed for it with the column cleared |
| JsonMatcherExamples.DuplicateMarkerExample | json_matcher.py:48-49 | `IMG_1667(1).jpg` is probed as `IMG_1667.jpg(1).json`, then `IMG_1667(1).json`, then `IMG_1667(1).jpg.json` |
| JsonMatcherExamples.MarkedNameCandidate | json_matcher.py:44-84 | `stem(d).jpg` is probed as `stem.jpg(d).json`, then `stem(d).json`, then `stem(d).jpg.json` |
| JsonMatcherExamples.MultiDigitCounterExample | json_matcher.py:53 | `IMG_1667(12).jpg` is probed first as `IMG_1667(.jpg(12).json` |
| JsonMatcherExamples.TwoDigitCandidate | json_matcher.py:53 | `stem(de).jpg` is probed first as `stem(.jpg(de).json` |
| JsonMatcherExamples.EditedExample | json_matcher.py:56-58 | `Snapchat-1068254512-edited.jpg` is probed first as `Snapchat-1068254512.jpg.json` |
| JsonMatcherExamples.DefaultExample | json_matcher.py:61-62 | `photo.jpg` is probed first as `photo.jpg.json` |
| JsonMatcherExamples.UpperCaseImageExample | json_matcher.py:34 | `IMG_1.JPG` and `a/Photo.Png` pass the image test |
| JsonMatcherExamples.CasedExtension | json_matcher.py:34 | A name ending in `.jpg`, `.jpeg` or `.png` written with any mix of capitals is an image |
| JsonMatcherExamples.PhotoInDirectory | json_matcher.py:34-38 | A photo `dir/name` with an image extension lies in `dir` and passes the image test |
| JsonMatcherExamples.RowUnderDirectory | json_matcher.py:68 | A row at `dir/suffix` is a hit for `suffix` under `dir` |
| JsonMatcherExamples.RowUnderPrefix | json_matcher.py:68 | A row at any path that starts with `dir` and ends with `suffix` is a hit, whatever lies between |
| JsonMatcherExamples.MatchedScenario | json_matcher.py:64-70 | `dir/stem(d).jpg` next to `dir/stem.jpg(d).json` finds that sidecar |
| JsonMatcherExamples.MatchedExample | json_matcher.py:64-70 | `a/IMG_1(1).jpg` finds `a/IMG_1.jpg(1).json` |
| JsonMatcherExamples.UnmatchableScenario | json_matcher.py:64-87 | A photo finds nothing when no other row's path starts with the photo's directory string |
| JsonMatcherExamples.UnmatchableExample | json_matcher.py:64-87 | `b/foo.png` finds nothing when its only sidecar lies under `a/` |
| JsonMatcherExamples.SiblingDirectoryScenario | json_matcher.py:68-70 | A photo in `dir` is matched by a sidecar in a directory whose name merely starts with `dir` |
| JsonMatcherExamples.SiblingDirectoryExample | json_matcher.py:68-70 | `Photos 2020/x.jpg` is matched by `Photos 2020 (1)/x.jpg.json` |

## Left out

- Reading `out.csv` and writing `out_with_json.csv` (lines 20 and 96) are file I/O. The model takes the loaded table as an argument and returns the filtered one.
- The printed summary of found and missing sidecars (lines 99-101) is console output and is not modelled.
- An inventory with no rows is not modelled as pandas handles it: with an empty frame, `df.apply(find_json_file, axis=1)` returns a DataFrame rather than a column, so the assignment at line 90 raises, whereas `MatchInventory` returns `[]`.
- pandas is not modelled. `df[...]`, `.str.startswith`/`.str.endswith`, `iloc[0]` and `df.apply` are replaced by sequences and the functions above. Column dtypes and the index are not represented; only the cells the script reads are.
- `SourceFile` and `FileName` are assumed present in every row. A missing cell (NaN) is not modelled. A NaN `SourceFile` makes `row["SourceFile"].lower()` raise `AttributeError` (line 34), and a NaN `FileName` makes `os.path.splitext` raise `TypeError` (line 39). Either error aborts the whole script.
- PyStr.Lower: lower-cases ASCII letters only. Python's `str.lower` also maps other Unicode letters. No non-ASCII character lowers to one of the ASCII letters of `.jpg`, `.jpeg` or `.png`, so the image test is unaffected.
- PosixPath.Splitext, PosixPath.Dirname: follow CPython's `posixpath`. Windows `ntpath` semantics, with `\` separators and drive letters, are not modelled.
- metadata_loader.py is not part of this model. It reads this script's output, keeps the rows that have a `JsonFile`, fills `DateTimeOriginal` from each sidecar, and writes a new CSV.
- evaluate_results.py is not part of this model. It counts the rows of a results CSV with and without `DateTimeOriginal`.
