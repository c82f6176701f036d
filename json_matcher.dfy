/** Matching a photo of a Google Photos export to the `.json` sidecar that
    describes it, from file names alone (json_matcher.py, `find_json_file`). */
module JsonMatcher {
  import opened Wrappers
  import opened PyStr
  import opened PosixPath

  /** One row of the exiftool inventory: the full path, the bare file name, the
      capture time when the file carries one, and the matched sidecar path.
      A missing cell (NaN) is `None`. */
  datatype Row = Row(
    sourceFile: string,
    fileName: string,
    dateTimeOriginal: Option<string>,
    jsonFile: Option<string>)

  /** `path.lower().endswith((".jpg", ".jpeg", ".png"))`. */
  predicate IsImage(path: string) {
    var lower := Lower(path);
    EndsWith(lower, ".jpg") || EndsWith(lower, ".jpeg") || EndsWith(lower, ".png")
  }

  /** A row the matcher searches for: no capture time yet, and an image. */
  predicate Eligible(row: Row) {
    row.dateTimeOriginal.None? && IsImage(row.sourceFile)
  }

  /** `basename.split("(")[-1].split(")")[0]`: the duplicate counter `n` of `name(n)`. */
  function DuplicateCounter(basename: string): string {
    FirstPiece(LastPiece(basename, '('), ')')
  }

  /** Whether the duplicate-marker pattern fires: `"(" in basename and basename.endswith(")")`. */
  predicate HasDuplicateMarker(basename: string) {
    '(' in basename && EndsWith(basename, ")")
  }

  /** The primary sidecar name predicted for `fileName`, by the first of three
      naming patterns that applies: a `(n)` duplicate marker moved behind the
      extension, an `-edited` copy described by its original's sidecar, or the
      whole file name followed by `.json`. */
  function PrimaryCandidate(fileName: string): (c: string)
    ensures EndsWith(c, ".json")
  {
    var (basename, ext) := Splitext(fileName);
    if HasDuplicateMarker(basename) then
      DropLast(basename, 3) + ext + "(" + DuplicateCounter(basename) + ")" + ".json"
    else if EndsWith(basename, "-edited") then
      DropLast(basename, 7) + ext + ".json"
    else
      fileName + ".json"
  }

  /** The sidecar-name suffixes probed, in order: the primary candidate, then the
      name without its extension, then the full name. Nothing is de-duplicated. */
  function Candidates(fileName: string): (cs: seq<string>)
    ensures |cs| == 3
    ensures EndsWith(cs[0], ".json") && EndsWith(cs[1], ".json") && EndsWith(cs[2], ".json")
    ensures cs[0] == PrimaryCandidate(fileName)
    ensures cs[1] == Splitext(fileName).0 + ".json"
    ensures cs[2] == fileName + ".json"
  {
    var (basename, ext) := Splitext(fileName);
    ConcatEnds(basename, ".json");
    ConcatEnds(basename + ext, ".json");
    [PrimaryCandidate(fileName), basename + ".json", basename + ext + ".json"]
  }

  /** Every candidate names a `.json` file. */
  lemma CandidateIsSidecarName(fileName: string, k: nat)
    requires k < 3
    ensures EndsWith(Candidates(fileName)[k], ".json")
  {
    var cs := Candidates(fileName);
    if k == 0 {
      assert cs[0] == PrimaryCandidate(fileName);
    } else if k == 1 {
      assert cs[1] == Splitext(fileName).0 + ".json";
    } else {
      assert cs[2] == fileName + ".json";
    }
  }

  /** A table row is a hit for `suffix` when its path starts with `directory`
      and ends with `suffix`: plain string tests, not path-component tests. */
  predicate RowMatches(row: Row, directory: string, suffix: string) {
    StartsWith(row.sourceFile, directory) && EndsWith(row.sourceFile, suffix)
  }

  /** No row of the table is a hit for `suffix`. */
  predicate NoHit(table: seq<Row>, directory: string, suffix: string) {
    forall j :: 0 <= j < |table| ==> !RowMatches(table[j], directory, suffix)
  }

  /** The index of the first hit in table order (`json_rows.iloc[0]`), if any. */
  function FirstHit(table: seq<Row>, directory: string, suffix: string): (r: Option<nat>)
    ensures r.None? <==> NoHit(table, directory, suffix)
    ensures r.Some? ==> r.value < |table| && RowMatches(table[r.value], directory, suffix)
    ensures r.Some? ==> forall j :: 0 <= j < r.value ==> !RowMatches(table[j], directory, suffix)
    decreases |table|
  {
    if |table| == 0 then None
    else if RowMatches(table[0], directory, suffix) then Some(0)
    else match FirstHit(table[1..], directory, suffix)
      case None => None
      case Some(j) => Some(j + 1)
  }

  /** Which candidate won and which row it found. */
  datatype Hit = Hit(candidate: nat, row: nat)

  /** Probe the candidates in order; a later one is consulted only when every
      earlier one found nothing, and the winner's first hit is taken. */
  function Probe(table: seq<Row>, directory: string, candidates: seq<string>): (h: Option<Hit>)
    ensures h.None? <==> forall k :: 0 <= k < |candidates| ==> NoHit(table, directory, candidates[k])
    ensures h.Some? ==> h.value.candidate < |candidates| && h.value.row < |table|
    ensures h.Some? ==> RowMatches(table[h.value.row], directory, candidates[h.value.candidate])
    ensures h.Some? ==> forall k :: 0 <= k < h.value.candidate ==> NoHit(table, directory, candidates[k])
    ensures h.Some? ==> forall j :: 0 <= j < h.value.row ==> !RowMatches(table[j], directory, candidates[h.value.candidate])
    decreases |candidates|
  {
    if |candidates| == 0 then None
    else match FirstHit(table, directory, candidates[0])
      case Some(j) => Some(Hit(0, j))
      case None =>
        var rest := candidates[1..];
        assert NoHit(table, directory, candidates[0]);
        assert forall k :: 0 < k < |candidates| ==> candidates[k] == rest[k - 1];
        match Probe(table, directory, rest)
        case None => None
        case Some(h) =>
          assert candidates[h.candidate + 1] == rest[h.candidate];
          Some(Hit(h.candidate + 1, h.row))
  }

  /** `find_json_file(row)` against the whole inventory `table`: an existing
      `JsonFile` is returned untouched; a row with a capture time, or one that
      is not an image, gets `None`; otherwise the path of the first row, in
      table order, whose path starts with the row's `dirname` as a plain string
      prefix and ends with the first candidate name that has any hit. */
  function FindJsonFile(row: Row, table: seq<Row>): (r: Option<string>)
    ensures row.jsonFile.Some? ==> r == row.jsonFile
    ensures row.jsonFile.None? && !Eligible(row) ==> r.None?
  {
    if row.jsonFile.Some? then row.jsonFile
    else if row.dateTimeOriginal.None? then
      if !IsImage(row.sourceFile) then None
      else match Probe(table, Dirname(row.sourceFile), Candidates(row.fileName))
        case None => None
        case Some(h) => Some(table[h.row].sourceFile)
    else None
  }

  /** An eligible row with no sidecar yet stays without one exactly when no
      candidate has a hit: no row's path starts with its `dirname` string and
      ends with that candidate. */
  lemma FindJsonFileNone(row: Row, table: seq<Row>)
    requires row.jsonFile.None? && Eligible(row)
    ensures FindJsonFile(row, table).None? <==>
      forall k :: 0 <= k < 3 ==> NoHit(table, Dirname(row.sourceFile), Candidates(row.fileName)[k])
  {
    var cs := Candidates(row.fileName);
    assert |cs| == 3;
  }

  /** A sidecar the search finds is the path of a table row, starts with the
      row's `dirname` as a plain string prefix (a sibling such as
      `Photos 2020 (1)/` passes for `Photos 2020`), ends with one of the
      candidates and so names a `.json` file. */
  lemma FindJsonFileFound(row: Row, table: seq<Row>)
    requires row.jsonFile.None? && FindJsonFile(row, table).Some?
    ensures var v := FindJsonFile(row, table).value;
      (exists j :: 0 <= j < |table| && table[j].sourceFile == v) &&
      StartsWith(v, Dirname(row.sourceFile)) && EndsWith(v, ".json") &&
      exists k :: 0 <= k < 3 && EndsWith(v, Candidates(row.fileName)[k])
  {
    var dir, cs := Dirname(row.sourceFile), Candidates(row.fileName);
    var h := Probe(table, dir, cs).value;
    var v := table[h.row].sourceFile;
    assert FindJsonFile(row, table) == Some(v);
    CandidateIsSidecarName(row.fileName, h.candidate);
    EndsWithTrans(v, cs[h.candidate], ".json");
  }

  // ---------------------------------------------------------------------------
  // The three naming patterns

  /** What follows the last `(` of a marked name is `basename.split("(")[-1]`,
      and it ends with the closing `)`. */
  lemma AfterLastParen(basename: string)
    requires HasDuplicateMarker(basename)
    ensures 0 <= RFind(basename, '(') < |basename|
    ensures basename[RFind(basename, '(') + 1..] == LastPiece(basename, '(')
    ensures ')' in LastPiece(basename, '(') && '(' !in LastPiece(basename, '(')
  {
    var i, last := RFind(basename, '('), LastPiece(basename, '(');
    assert basename[|basename| - 1] == ')';
    assert i < |basename| - 1;
    assert last[|last| - 1] == basename[|basename| - 1];
    forall k | 0 <= k < |last| ensures last[k] != '(' {
      assert last[k] == basename[i + 1 + k];
    }
  }

  /** The duplicate counter is the text between the last `(` of the name and the
      first `)` after it. */
  lemma DuplicateCounterBetween(basename: string)
    requires HasDuplicateMarker(basename)
    ensures var i, n := RFind(basename, '('), DuplicateCounter(basename);
      0 <= i && i + 1 + |n| < |basename| && basename[i] == '(' &&
      basename[i + 1..i + 1 + |n|] == n && basename[i + 1 + |n|] == ')' &&
      '(' !in n && ')' !in n
  {
    var last := LastPiece(basename, '(');
    AfterLastParen(basename);
    FirstPieceBeforeSep(last, ')');
    CounterInsideLast(basename, last, FirstPiece(last, ')'), RFind(basename, '('));
  }

  /** The counter sits right after the last `(`, inside the text that follows it. */
  lemma CounterInsideLast(basename: string, last: string, n: string, i: int)
    requires 0 <= i < |basename| && basename[i + 1..] == last
    requires |n| < |last| && last[..|n|] == n && last[|n|] == ')'
    requires '(' !in last
    ensures i + 1 + |n| < |basename| && basename[i + 1..i + 1 + |n|] == n
    ensures basename[i + 1 + |n|] == ')' && '(' !in n
  {
    assert basename[i + 1..i + 1 + |n|] == last[..|n|];
    assert basename[i + 1 + |n|] == last[|n|];
    forall k | 0 <= k < |n| ensures n[k] != '(' {
      assert n[k] == last[k];
    }
  }

  /** For a name `stem(n)` with no parenthesis inside `n`, the counter is `n`,
      whatever parentheses `stem` holds. */
  lemma CounterOfMarkedName(stem: string, n: string)
    requires '(' !in n && ')' !in n
    ensures HasDuplicateMarker(stem + "(" + n + ")")
    ensures DuplicateCounter(stem + "(" + n + ")") == n
  {
    var b := stem + "(" + n + ")";
    assert b[|stem|] == '(';
    DuplicateCounterBetween(b);
    forall j | |stem| < j < |b| ensures b[j] != '(' {
      if j < |b| - 1 { assert b[j] == n[j - |stem| - 1]; }
    }
    RFindIsLast(b, '(', |stem|);
    assert b[|stem| + 1..|stem| + 1 + |n|] == n;
  }

  /** Duplicate-marker pattern: for `stem(n).ext` the primary candidate keeps all
      of the name but its last three characters, then the extension, then `(n)`.
      With a one-character counter that moves `(n)` behind the extension
      (`IMG_1667(1).jpg` gives `IMG_1667.jpg(1).json`); with a longer counter the
      `(` and all but the last two counter characters stay in front of the
      extension. */
  lemma DuplicateMarkerCandidate(fileName: string, stem: string, n: string)
    requires Splitext(fileName).0 == stem + "(" + n + ")"
    requires '(' !in n && ')' !in n
    ensures var ext := Splitext(fileName).1;
      (|n| == 1 ==> PrimaryCandidate(fileName) == stem + ext + "(" + n + ")" + ".json") &&
      (|n| >= 2 ==> PrimaryCandidate(fileName) == stem + "(" + n[..|n| - 2] + ext + "(" + n + ")" + ".json") &&
      (|n| == 0 ==> PrimaryCandidate(fileName) == DropLast(stem, 1) + ext + "()" + ".json")
  {
    var b, ext := stem + "(" + n + ")", Splitext(fileName).1;
    CounterOfMarkedName(stem, n);
    assert PrimaryCandidate(fileName) == DropLast(b, 3) + ext + "(" + n + ")" + ".json";
    DropMarker(stem, n);
  }

  /** Dropping the last three characters of `stem(n)`. */
  lemma DropMarker(stem: string, n: string)
    ensures var b := stem + "(" + n + ")";
      (|n| == 1 ==> DropLast(b, 3) == stem) &&
      (|n| >= 2 ==> DropLast(b, 3) == stem + "(" + n[..|n| - 2]) &&
      (|n| == 0 ==> DropLast(b, 3) == DropLast(stem, 1))
  {
    var b := stem + "(" + n + ")";
    if |n| == 1 {
      assert b[..|stem|] == stem;
    } else if |n| >= 2 {
      assert b[..|b| - 3] == stem + "(" + n[..|n| - 2];
    } else if |stem| >= 1 {
      assert b[..|b| - 3] == stem[..|stem| - 1];
    }
  }

  /** Edited-copy pattern: `stem-edited.ext` is described by the sidecar of
      `stem.ext`. */
  lemma EditedCandidate(fileName: string, stem: string)
    requires Splitext(fileName).0 == stem + "-edited"
    ensures PrimaryCandidate(fileName) == stem + Splitext(fileName).1 + ".json"
  {
    var b, ext := stem + "-edited", Splitext(fileName).1;
    assert b[|b| - 1] == 'd';
    assert b[|b| - 7..] == "-edited";
    assert DropLast(b, 7) == stem;
    assert PrimaryCandidate(fileName) == DropLast(b, 7) + ext + ".json";
  }

  /** Default pattern: with neither marker the primary candidate is the full
      file name plus `.json`, which is also the last fallback. */
  lemma DefaultCandidate(fileName: string)
    requires !HasDuplicateMarker(Splitext(fileName).0)
    requires !EndsWith(Splitext(fileName).0, "-edited")
    ensures PrimaryCandidate(fileName) == fileName + ".json"
    ensures Candidates(fileName)[0] == Candidates(fileName)[2]
  {
  }

  // ---------------------------------------------------------------------------
  // Resolution

  /** The result is fixed by the first candidate that has a hit and that
      candidate's first hit in table order: any such pair gives the answer. */
  lemma FindJsonFileFirstHit(row: Row, table: seq<Row>, k: nat, j: nat)
    requires row.jsonFile.None? && Eligible(row)
    requires k < 3 && j < |table|
    requires RowMatches(table[j], Dirname(row.sourceFile), Candidates(row.fileName)[k])
    requires forall k' :: 0 <= k' < k ==> NoHit(table, Dirname(row.sourceFile), Candidates(row.fileName)[k'])
    requires forall j' :: 0 <= j' < j ==> !RowMatches(table[j'], Dirname(row.sourceFile), Candidates(row.fileName)[k])
    ensures FindJsonFile(row, table) == Some(table[j].sourceFile)
  {
    var dir, cs := Dirname(row.sourceFile), Candidates(row.fileName);
    assert !NoHit(table, dir, cs[k]);
    var h := Probe(table, dir, cs).value;
    assert h.candidate == k by {
      if h.candidate < k {
        assert NoHit(table, dir, cs[h.candidate]);
      }
    }
    assert h.row == j;
  }

  /** The paths of the table, in order: the only column the search looks at. */
  function Paths(table: seq<Row>): (ps: seq<string>)
    ensures |ps| == |table|
  {
    seq(|table|, i requires 0 <= i < |table| => table[i].sourceFile)
  }

  /** The search reads nothing of the table but its `SourceFile` column. */
  lemma FindJsonFileReadsOnlyPaths(row: Row, t1: seq<Row>, t2: seq<Row>)
    requires Paths(t1) == Paths(t2)
    ensures FindJsonFile(row, t1) == FindJsonFile(row, t2)
  {
    assert forall j :: 0 <= j < |t1| ==> t1[j].sourceFile == Paths(t1)[j] == Paths(t2)[j] == t2[j].sourceFile;
    if row.jsonFile.None? && Eligible(row) {
      var dir, cs := Dirname(row.sourceFile), Candidates(row.fileName);
      var h1, h2 := Probe(t1, dir, cs), Probe(t2, dir, cs);
      if h1.Some? {
        FindJsonFileFirstHit(row, t2, h1.value.candidate, h1.value.row);
      } else if h2.Some? {
        FindJsonFileFirstHit(row, t1, h2.value.candidate, h2.value.row);
      }
    }
  }

  /** Running the search on its own result changes nothing. */
  lemma FindJsonFileIdempotent(row: Row, table: seq<Row>)
    ensures FindJsonFile(row.(jsonFile := FindJsonFile(row, table)), table) == FindJsonFile(row, table)
  {
  }

  /** A row that already has a sidecar, has a capture time or is not an image
      is answered without looking at the table. */
  lemma GuardsSkipSearch(row: Row, t1: seq<Row>, t2: seq<Row>)
    requires row.jsonFile.Some? || !Eligible(row)
    ensures FindJsonFile(row, t1) == FindJsonFile(row, t2)
  {
  }

  /** A path ending in a lower-case image extension is an image. */
  lemma LowerCaseImage(path: string, ext: string)
    requires ext == ".jpg" || ext == ".jpeg" || ext == ".png"
    requires EndsWith(path, ext)
    ensures IsImage(path)
  {
    assert !HasUpperCase(ext);
    LowerKeepsSuffix(path, ext);
  }

  /** The image test ignores case: it gives the same answer on the lower-cased path. */
  lemma IsImageIgnoresCase(path: string)
    ensures IsImage(Lower(path)) == IsImage(path)
  {
    assert Lower(Lower(path)) == Lower(path);
  }

  /** The image test is a case-insensitive test of the extension: `IMG_1.JPG`
      and `a.Png` are images just as `IMG_1.jpg` is. */
  lemma ImageTestIgnoresCase(path: string)
    ensures IsImage(path) <==>
      EndsWithIgnoringCase(path, ".jpg") || EndsWithIgnoringCase(path, ".jpeg") ||
      EndsWithIgnoringCase(path, ".png")
  {
    assert !HasUpperCase(".jpg") && !HasUpperCase(".jpeg") && !HasUpperCase(".png");
    LowerEndsWith(path, ".jpg");
    LowerEndsWith(path, ".jpeg");
    LowerEndsWith(path, ".png");
  }

  /** A `.json` path is never an image, so a sidecar found by the search is
      never itself searched for nor kept in the output. */
  lemma SidecarIsNotImage(path: string)
    requires EndsWith(path, ".json")
    ensures !IsImage(path)
  {
    assert path[|path| - 1] == 'n';
    assert Lower(path)[|path| - 1] == 'n';
  }

  /** An image path never ends with a candidate name, so no photo is ever
      taken for a sidecar. */
  lemma ImageNeverHits(path: string, candidate: string)
    requires IsImage(path)
    requires EndsWith(candidate, ".json")
    ensures !EndsWith(path, candidate)
  {
    if EndsWith(path, candidate) {
      EndsWithTrans(path, candidate, ".json");
      SidecarIsNotImage(path);
    }
  }
}
