/** The two `os.path` functions the matcher calls, as CPython's `posixpath`
    defines them: one separator, `/`, and `.` as the extension separator. */
module PosixPath {
  import opened PyStr

  /** `os.path.basename(p)`: everything after the last `/`, which is
      `p.split("/")[-1]`. */
  function Basename(p: string): string {
    LastPiece(p, '/')
  }

  /** `os.path.splitext(p)`: cut at the last `.` of the last path segment, unless
      everything before that `.` in the segment is dots too (leading dots of a
      name such as `.profile` do not start an extension). */
  function Splitext(p: string): (r: (string, string))
    ensures r.0 + r.1 == p
    ensures r.1 == "" || r.1[0] == '.'
    ensures forall k :: 0 < k < |r.1| ==> r.1[k] != '.' && r.1[k] != '/'
  {
    var sepIndex := RFind(p, '/');
    var dotIndex := RFind(p, '.');
    if dotIndex > sepIndex && HasStem(p, sepIndex, dotIndex) then
      ExtensionAfterLastDot(p, dotIndex, sepIndex);
      (p[..dotIndex], p[dotIndex..])
    else
      (p, "")
  }

  /** The part of the last segment before its last `.` is not dots only. */
  predicate HasStem(p: string, sepIndex: int, dotIndex: int)
    requires -1 <= sepIndex < dotIndex <= |p|
  {
    !AllChar(p[sepIndex + 1..dotIndex], '.')
  }

  /** What follows the last `.`, when no `/` comes after it, holds neither. */
  lemma ExtensionAfterLastDot(p: string, dotIndex: int, sepIndex: int)
    requires -1 <= sepIndex < dotIndex < |p| && p[dotIndex] == '.'
    requires forall k :: dotIndex < k < |p| ==> p[k] != '.'
    requires forall k :: sepIndex < k < |p| ==> p[k] != '/'
    ensures p[..dotIndex] + p[dotIndex..] == p
    ensures p[dotIndex..][0] == '.'
    ensures forall k :: 0 < k < |p| - dotIndex ==> p[dotIndex..][k] != '.' && p[dotIndex..][k] != '/'
  {
    forall k | 0 < k < |p| - dotIndex
      ensures p[dotIndex..][k] != '.' && p[dotIndex..][k] != '/'
    {
      assert p[dotIndex..][k] == p[dotIndex + k];
    }
  }

  /** When an extension is split off, the rest of the last segment is not all
      dots: leading dots never start an extension. */
  lemma SplitextKeepsStem(p: string)
    requires Splitext(p).1 != ""
    ensures !AllChar(Basename(Splitext(p).0), '.')
  {
    var sepIndex := RFind(p, '/');
    var dotIndex := RFind(p, '.');
    RFindPrefix(p, '/', dotIndex);
    assert Basename(p[..dotIndex]) == p[sepIndex + 1..dotIndex];
  }

  /** No extension is split off only when the last segment has no `.`, or has
      nothing but dots before its last `.`. */
  lemma SplitextNoExtension(p: string)
    requires Splitext(p).1 == ""
    ensures var name := Basename(p);
      RFind(name, '.') < 0 || AllChar(name[..RFind(name, '.')], '.')
  {
    var sepIndex := RFind(p, '/');
    var dotIndex := RFind(p, '.');
    RFindSuffix(p, '.', sepIndex + 1);
    if dotIndex > sepIndex {
      assert Basename(p)[..RFind(Basename(p), '.')] == p[sepIndex + 1..dotIndex];
    }
  }

  /** A name without `/` whose last `.` starts `ext` and whose stem is not all
      dots splits into that stem and that extension. */
  lemma SplitextOfName(stem: string, ext: string)
    requires '/' !in stem && !AllChar(stem, '.')
    requires |ext| >= 1 && ext[0] == '.'
    requires forall k :: 0 < k < |ext| ==> ext[k] != '.' && ext[k] != '/'
    ensures Splitext(stem + ext) == (stem, ext)
  {
    var p := stem + ext;
    RFindIsLast(p, '.', |stem|);
    assert forall k :: 0 <= k < |p| ==> p[k] != '/' by {
      forall k | 0 <= k < |p| ensures p[k] != '/' {
        if k < |stem| { assert p[k] == stem[k]; }
      }
    }
    assert p[..|stem|] == stem;
  }

  /** `os.path.dirname(p)`: everything before the last `/`, with the run of
      slashes in front of the last segment removed unless it is all there is. */
  function Dirname(p: string): (r: string)
    ensures StartsWith(p, r)
    ensures r == "" <==> '/' !in p
    ensures r == "" || r[|r| - 1] != '/' || AllChar(r, '/')
  {
    var head := p[..RFind(p, '/') + 1];
    if head != "" && !AllChar(head, '/') then RStrip(head, '/') else head
  }

  /** The directory of `dir/name` is `dir`, for a `dir` that does not end in `/`. */
  lemma DirnameOfJoin(dir: string, name: string)
    requires dir != "" && dir[|dir| - 1] != '/'
    requires '/' !in name
    ensures Dirname(dir + "/" + name) == dir
  {
    var p := dir + "/" + name;
    forall k | |dir| < k < |p| ensures p[k] != '/' {
      assert p[k] == name[k - |dir| - 1];
    }
    RFindIsLast(p, '/', |dir|);
    var head := p[..|dir| + 1];
    assert head == dir + "/";
    assert RStrip(head, '/') == RStrip(dir, '/');
  }

  /** Between the directory and the last segment there are only slashes. */
  lemma DirnameThenBasename(p: string)
    ensures |Dirname(p)| + |Basename(p)| <= |p|
    ensures AllChar(p[|Dirname(p)|..|p| - |Basename(p)|], '/')
  {
    LastPieceIsSuffix(p, '/');
  }
}
