/** Worked file names and small inventories for the matcher: the examples
    json_matcher.py gives in its comments, a multi-digit duplicate counter, and
    what the prefix test on directories lets through. */
module JsonMatcherExamples {
  import opened Wrappers
  import opened PyStr
  import opened PosixPath
  import opened JsonMatcher

  /** `IMG_1667(1).jpg` is looked for as `IMG_1667.jpg(1).json`, then
      `IMG_1667(1).json`, then `IMG_1667(1).jpg.json`. */
  lemma DuplicateMarkerExample()
    ensures Candidates("IMG_1667(1).jpg") ==
      ["IMG_1667.jpg(1).json", "IMG_1667(1).json", "IMG_1667(1).jpg.json"]
  {
    var stem, d := "IMG_1667", '1';
    assert stem + "(" + [d] + ")" + ".jpg" == "IMG_1667(1).jpg";
    assert stem + ".jpg" + "(" + [d] + ")" + ".json" == "IMG_1667.jpg(1).json";
    assert stem + "(" + [d] + ")" + ".json" == "IMG_1667(1).json";
    assert "IMG_1667(1).jpg" + ".json" == "IMG_1667(1).jpg.json";
    assert '/' !in stem;
    MarkedNameCandidate(stem, d);
  }

  /** A two-digit marker `(12)` loses three of its four characters, keeping `(`:
      `IMG_1667(12).jpg` is looked for as `IMG_1667(.jpg(12).json`. */
  lemma MultiDigitCounterExample()
    ensures PrimaryCandidate("IMG_1667(12).jpg") == "IMG_1667(.jpg(12).json"
  {
    var stem, d, e := "IMG_1667", '1', '2';
    assert stem + "(" + [d, e] + ")" + ".jpg" == "IMG_1667(12).jpg";
    assert stem + "(" + ".jpg" + "(" + [d, e] + ")" + ".json" == "IMG_1667(.jpg(12).json";
    assert '/' !in stem;
    TwoDigitCandidate(stem, d, e);
  }

  /** `stem(de).jpg` is looked for first as `stem(.jpg(de).json`. */
  lemma TwoDigitCandidate(stem: string, d: char, e: char)
    requires '/' !in stem
    requires d != '(' && d != ')' && d != '/' && e != '(' && e != ')' && e != '/'
    ensures var name := stem + "(" + [d, e] + ")" + ".jpg";
      PrimaryCandidate(name) == stem + "(" + ".jpg" + "(" + [d, e] + ")" + ".json"
  {
    var n, tail := [d, e], ['(', d, e, ')'];
    var basename := stem + "(" + n + ")";
    assert basename == stem + tail;
    assert basename[|stem|] == '(';
    assert '/' !in basename by {
      forall k | 0 <= k < |basename| ensures basename[k] != '/' {
        if k < |stem| {
          assert basename[k] == stem[k];
        } else {
          assert basename[k] == tail[k - |stem|];
        }
      }
    }
    SplitextOfName(basename, ".jpg");
    assert Splitext(basename + ".jpg").1 == ".jpg";
    NoParenthesis(d, e);
    DuplicateMarkerCandidate(basename + ".jpg", stem, n);
    assert n[..|n| - 2] == [];
    assert stem + "(" + n[..|n| - 2] == stem + "(";
  }

  /** Two characters that are not parentheses make a counter without any. */
  lemma NoParenthesis(d: char, e: char)
    requires d != '(' && d != ')' && e != '(' && e != ')'
    ensures '(' !in [d, e] && ')' !in [d, e]
  {
    forall k | 0 <= k < 2 ensures [d, e][k] != '(' && [d, e][k] != ')' {
      if k == 0 { assert [d, e][k] == d; } else { assert [d, e][k] == e; }
    }
  }

  /** `Snapchat-1068254512-edited.jpg` is described by `Snapchat-1068254512.jpg.json`. */
  lemma EditedExample()
    ensures PrimaryCandidate("Snapchat-1068254512-edited.jpg") == "Snapchat-1068254512.jpg.json"
  {
    var stem := "Snapchat-1068254512";
    var basename := stem + "-edited";
    assert basename + ".jpg" == "Snapchat-1068254512-edited.jpg";
    assert stem + ".jpg" + ".json" == "Snapchat-1068254512.jpg.json";
    assert basename[0] != '.';
    SplitextOfName(basename, ".jpg");
    EditedCandidate(basename + ".jpg", stem);
  }

  /** `photo.jpg`, with neither marker, is described by `photo.jpg.json`. */
  lemma DefaultExample()
    ensures PrimaryCandidate("photo.jpg") == "photo.jpg.json"
  {
    var basename, name := "photo", "photo.jpg";
    assert basename + ".jpg" == name;
    assert name + ".json" == "photo.jpg.json";
    assert basename[0] != '.';
    SplitextOfName(basename, ".jpg");
    assert !EndsWith(basename, ")") by {
      assert basename[|basename| - 1] == 'o';
    }
    assert !EndsWith(basename, "-edited");
    DefaultCandidate(name);
  }

  /** `stem(d).jpg` is looked for as `stem.jpg(d).json`, then `stem(d).json`,
      then `stem(d).jpg.json`. */
  lemma MarkedNameCandidate(stem: string, d: char)
    requires '/' !in stem
    requires d != '(' && d != ')' && d != '/'
    ensures var name := stem + "(" + [d] + ")" + ".jpg";
      '/' !in name && PrimaryCandidate(name) == stem + ".jpg" + "(" + [d] + ")" + ".json" &&
      Candidates(name) == [stem + ".jpg" + "(" + [d] + ")" + ".json", stem + "(" + [d] + ")" + ".json", name + ".json"]
  {
    var basename, tail := stem + "(" + [d] + ")", ['(', d, ')', '.', 'j', 'p', 'g'];
    var name := basename + ".jpg";
    assert name == stem + tail;
    assert '/' !in name by {
      forall k | 0 <= k < |name| ensures name[k] != '/' {
        if k < |stem| {
          assert name[k] == stem[k];
        } else {
          assert name[k] == tail[k - |stem|];
        }
      }
    }
    assert basename[|stem|] == '(';
    assert '/' !in basename by {
      forall k | 0 <= k < |basename| ensures basename[k] != '/' {
        assert basename[k] == name[k];
      }
    }
    SplitextOfName(basename, ".jpg");
    DuplicateMarkerCandidate(name, stem, [d]);
  }

  /** Capital letters in the extension do not hide an image. */
  lemma UpperCaseImageExample()
    ensures IsImage("IMG_1.JPG") && IsImage("a/Photo.Png")
  {
    assert "IMG_1" + ".JPG" == "IMG_1.JPG";
    assert "a/Photo" + ".Png" == "a/Photo.Png";
    CasedExtension("IMG_1", ".JPG", ".jpg");
    CasedExtension("a/Photo", ".Png", ".png");
  }

  /** A name ending in an image extension written in any case is an image. */
  lemma CasedExtension(stem: string, cased: string, ext: string)
    requires ext == ".jpg" || ext == ".jpeg" || ext == ".png"
    requires |cased| == |ext|
    requires forall k :: 0 <= k < |ext| ==> UpperChar(cased[k]) == UpperChar(ext[k])
    ensures IsImage(stem + cased)
  {
    var path := stem + cased;
    forall k | 0 <= k < |ext|
      ensures UpperChar(path[|path| - |ext| + k]) == UpperChar(ext[k])
    {
      assert path[|path| - |ext| + k] == cased[k];
    }
    assert EndsWithIgnoringCase(path, ext);
    ImageTestIgnoresCase(path);
  }

  /** A photo `dir/name` with an image extension lies in `dir` and is an image. */
  lemma PhotoInDirectory(dir: string, name: string, ext: string)
    requires dir != "" && dir[|dir| - 1] != '/' && '/' !in name
    requires ext == ".jpg" || ext == ".jpeg" || ext == ".png"
    requires EndsWith(name, ext)
    ensures Dirname(dir + "/" + name) == dir
    ensures IsImage(dir + "/" + name)
  {
    DirnameOfJoin(dir, name);
    ConcatEnds(dir + "/", name);
    EndsWithTrans(dir + "/" + name, name, ext);
    LowerCaseImage(dir + "/" + name, ext);
  }

  /** A row at `dir/suffix` is a hit for `suffix` under `dir`. */
  lemma RowUnderDirectory(dir: string, suffix: string, fileName: string)
    ensures RowMatches(Row(dir + "/" + suffix, fileName, None, None), dir, suffix)
  {
    ConcatEnds(dir, "/" + suffix);
    ConcatEnds(dir + "/", suffix);
    assert dir + ("/" + suffix) == dir + "/" + suffix;
  }

  /** A row at `dir` + `middle` + `suffix` is a hit for `suffix` under `dir`,
      whatever `middle` is. */
  lemma RowUnderPrefix(dir: string, middle: string, suffix: string, fileName: string)
    ensures RowMatches(Row(dir + (middle + suffix), fileName, None, None), dir, suffix)
  {
    ConcatEnds(dir, middle + suffix);
    ConcatEnds(middle, suffix);
    EndsWithTrans(dir + (middle + suffix), middle + suffix, suffix);
  }

  /** A photo `dir/stem(d).jpg` with no capture time, next to the sidecar
      `dir/stem.jpg(d).json`, is matched to that sidecar. */
  lemma MatchedScenario(dir: string, stem: string, d: char)
    requires dir != "" && dir[|dir| - 1] != '/'
    requires '/' !in stem
    requires d != '(' && d != ')' && d != '/'
    ensures var name := stem + "(" + [d] + ")" + ".jpg";
      var photo := Row(dir + "/" + name, name, None, None);
      var sidecar := dir + "/" + (stem + ".jpg" + "(" + [d] + ")" + ".json");
      FindJsonFile(photo, [photo, Row(sidecar, sidecar, None, None)]) == Some(sidecar)
  {
    var name := stem + "(" + [d] + ")" + ".jpg";
    var photo := Row(dir + "/" + name, name, None, None);
    var primary := stem + ".jpg" + "(" + [d] + ")" + ".json";
    var sidecar := dir + "/" + primary;
    var table := [photo, Row(sidecar, sidecar, None, None)];
    MarkedNameCandidate(stem, d);
    ConcatEnds(stem + "(" + [d] + ")", ".jpg");
    PhotoInDirectory(dir, name, ".jpg");
    RowUnderDirectory(dir, primary, sidecar);
    ImageNeverHits(photo.sourceFile, primary);
    assert Dirname(photo.sourceFile) == dir && Candidates(name)[0] == primary;
    assert RowMatches(table[1], dir, primary);
    forall j | 0 <= j < 1 ensures !RowMatches(table[j], dir, primary) {
      assert table[j] == photo;
    }
    FindJsonFileFirstHit(photo, table, 0, 1);
  }

  /** The end-to-end case: `a/IMG_1(1).jpg` finds `a/IMG_1.jpg(1).json`. */
  lemma MatchedExample()
    ensures var photo := Row("a/IMG_1(1).jpg", "IMG_1(1).jpg", None, None);
      var sidecar := Row("a/IMG_1.jpg(1).json", "a/IMG_1.jpg(1).json", None, None);
      FindJsonFile(photo, [photo, sidecar]) == Some("a/IMG_1.jpg(1).json")
  {
    assert "IMG_1" + "(" + ['1'] + ")" + ".jpg" == "IMG_1(1).jpg";
    assert "a" + "/" + "IMG_1(1).jpg" == "a/IMG_1(1).jpg";
    assert "a" + "/" + ("IMG_1" + ".jpg" + "(" + ['1'] + ")" + ".json") == "a/IMG_1.jpg(1).json";
    MatchedScenario("a", "IMG_1", '1');
  }

  /** A photo `dir/name` finds nothing when no other row's path starts with
      the string `dir`. */
  lemma UnmatchableScenario(dir: string, name: string, ext: string, others: seq<Row>)
    requires dir != "" && dir[|dir| - 1] != '/' && '/' !in name
    requires ext == ".jpg" || ext == ".jpeg" || ext == ".png"
    requires EndsWith(name, ext)
    requires forall j :: 0 <= j < |others| ==> !StartsWith(others[j].sourceFile, dir)
    ensures var photo := Row(dir + "/" + name, name, None, None);
      FindJsonFile(photo, [photo] + others) == None
  {
    var photo := Row(dir + "/" + name, name, None, None);
    var table := [photo] + others;
    PhotoInDirectory(dir, name, ext);
    FindJsonFileNone(photo, table);
    var cs := Candidates(name);
    forall k | 0 <= k < 3 ensures NoHit(table, dir, cs[k]) {
      CandidateIsSidecarName(name, k);
      ImageNeverHits(photo.sourceFile, cs[k]);
      forall j | 0 <= j < |table| ensures !RowMatches(table[j], dir, cs[k]) {
        if j > 0 { assert table[j] == others[j - 1]; }
      }
    }
  }

  /** The second end-to-end case: `b/foo.png` with its only sidecar under `a/`
      stays unmatched. */
  lemma UnmatchableExample()
    ensures var photo := Row("b/foo.png", "foo.png", None, None);
      FindJsonFile(photo, [photo, Row("a/foo.png.json", "foo.png.json", None, None)]) == None
  {
    var others := [Row("a/foo.png.json", "foo.png.json", None, None)];
    assert "b" + "/" + "foo.png" == "b/foo.png";
    assert [Row("b/foo.png", "foo.png", None, None)] + others ==
      [Row("b/foo.png", "foo.png", None, None), Row("a/foo.png.json", "foo.png.json", None, None)];
    assert others[0].sourceFile[0] != 'b';
    ConcatEnds("foo", ".png");
    assert "foo" + ".png" == "foo.png";
    UnmatchableScenario("b", "foo.png", ".png", others);
  }

  /** The directory test is a string prefix, not a path component: a photo
      `dir/name` with neither marker is matched to `name.json` in any directory
      whose name merely starts with `dir`. */
  lemma SiblingDirectoryScenario(dir: string, sibling: string, name: string)
    requires dir != "" && dir[|dir| - 1] != '/' && '/' !in name
    requires EndsWith(name, ".jpg")
    requires !HasDuplicateMarker(Splitext(name).0) && !EndsWith(Splitext(name).0, "-edited")
    ensures var photo := Row(dir + "/" + name, name, None, None);
      var path := dir + (sibling + "/" + (name + ".json"));
      FindJsonFile(photo, [photo, Row(path, name + ".json", None, None)]) == Some(path)
  {
    var photo := Row(dir + "/" + name, name, None, None);
    var path := dir + (sibling + "/" + (name + ".json"));
    var table := [photo, Row(path, name + ".json", None, None)];
    PhotoInDirectory(dir, name, ".jpg");
    DefaultCandidate(name);
    RowUnderPrefix(dir, sibling + "/", name + ".json", name + ".json");
    ImageNeverHits(photo.sourceFile, name + ".json");
    assert Dirname(photo.sourceFile) == dir && Candidates(name)[0] == name + ".json";
    assert RowMatches(table[1], dir, name + ".json");
    forall j | 0 <= j < 1 ensures !RowMatches(table[j], dir, name + ".json") {
      assert table[j] == photo;
    }
    FindJsonFileFirstHit(photo, table, 0, 1);
  }

  /** `Photos 2020/x.jpg` is matched to `Photos 2020 (1)/x.jpg.json`. */
  lemma SiblingDirectoryExample()
    ensures var photo := Row("Photos 2020/x.jpg", "x.jpg", None, None);
      var sidecar := Row("Photos 2020 (1)/x.jpg.json", "x.jpg.json", None, None);
      FindJsonFile(photo, [photo, sidecar]) == Some("Photos 2020 (1)/x.jpg.json")
  {
    var dir, basename := "Photos 2020", "x";
    var name := basename + ".jpg";
    assert name == "x.jpg";
    assert dir + "/" + name == "Photos 2020/x.jpg";
    assert name + ".json" == "x.jpg.json";
    assert dir + (" (1)" + "/" + (name + ".json")) == "Photos 2020 (1)/x.jpg.json";
    assert basename[0] != '.';
    SplitextOfName(basename, ".jpg");
    ConcatEnds(basename, ".jpg");
    SiblingDirectoryScenario(dir, " (1)", name);
  }
}
