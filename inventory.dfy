/** The driver of json_matcher.py over the whole exiftool inventory: the
    `JsonFile` column is added empty, every row is annotated with the sidecar
    `find_json_file` picks for it, and the output keeps the images that still
    lack a capture time. */
module Inventory {
  import opened Wrappers
  import opened PyStr
  import opened PosixPath
  import opened JsonMatcher

  /** The table after `df["JsonFile"] = pd.Series(dtype=str)`: every cell of the
      column is missing, every other cell is as it was. */
  function Cleared(rows: seq<Row>): (out: seq<Row>)
    ensures |out| == |rows|
    ensures forall i :: 0 <= i < |out| ==> out[i].jsonFile.None?
    ensures forall i :: 0 <= i < |out| ==>
      out[i].sourceFile == rows[i].sourceFile && out[i].fileName == rows[i].fileName &&
      out[i].dateTimeOriginal == rows[i].dateTimeOriginal
  {
    seq(|rows|, i requires 0 <= i < |rows| => rows[i].(jsonFile := None))
  }

  /** The table after `df["JsonFile"] = df.apply(find_json_file, axis=1)`: each
      row's sidecar is looked up against the table as it stood before the
      assignment, and no other cell changes. */
  function Annotated(rows: seq<Row>): (out: seq<Row>)
    ensures |out| == |rows|
    ensures forall i :: 0 <= i < |out| ==> out[i].jsonFile == FindJsonFile(rows[i], rows)
    ensures forall i :: 0 <= i < |out| ==> out[i].(jsonFile := rows[i].jsonFile) == rows[i]
  {
    seq(|rows|, i requires 0 <= i < |rows| => WithSidecar(rows[i], rows))
  }

  /** `row` with its `JsonFile` cell set to what `find_json_file` returns for it. */
  function WithSidecar(row: Row, table: seq<Row>): Row {
    row.(jsonFile := FindJsonFile(row, table))
  }

  /** The output of `df[(image) & (DateTimeOriginal is missing)]`: exactly the
      rows the matcher searches for, in table order. */
  function UnresolvedImages(rows: seq<Row>): (out: seq<Row>)
    ensures |out| <= |rows|
    ensures forall i :: 0 <= i < |out| ==> Eligible(out[i])
    decreases |rows|
  {
    if |rows| == 0 then []
    else
      var last := rows[|rows| - 1];
      UnresolvedImages(rows[..|rows| - 1]) + (if Eligible(last) then [last] else [])
  }

  /** The filter keeps a row exactly when it is an image with no capture time. */
  lemma {:induction false} UnresolvedImagesMembers(rows: seq<Row>, r: Row)
    ensures r in UnresolvedImages(rows) <==> r in rows && Eligible(r)
    decreases |rows|
  {
    if |rows| > 0 {
      var init := rows[..|rows| - 1];
      assert rows == init + [rows[|rows| - 1]];
      UnresolvedImagesMembers(init, r);
    }
  }

  /** The whole run of the script on an inventory loaded into `rows`. */
  function MatchedInventory(rows: seq<Row>): seq<Row> {
    UnresolvedImages(Annotated(Cleared(rows)))
  }

  // ---------------------------------------------------------------------------
  // The driver, step by step

  /** Line 23: clear the `JsonFile` column in place. */
  method AddJsonFileColumn(rows: array<Row>)
    modifies rows
    ensures rows[..] == Cleared(old(rows[..]))
  {
    for i := 0 to rows.Length
      invariant forall j :: 0 <= j < i ==> rows[j] == old(rows[j]).(jsonFile := None)
      invariant forall j :: i <= j < rows.Length ==> rows[j] == old(rows[j])
    {
      rows[i] := rows[i].(jsonFile := None);
    }
  }

  /** Line 90: annotate every row, each against a snapshot of the table taken
      before any row is written, as `df.apply` computes the whole column before
      it is assigned. */
  method ApplyFindJsonFile(rows: array<Row>)
    modifies rows
    ensures rows[..] == Annotated(old(rows[..]))
  {
    var table := rows[..];
    for i := 0 to rows.Length
      invariant forall j :: 0 <= j < i ==> rows[j] == WithSidecar(table[j], table)
      invariant forall j :: i <= j < rows.Length ==> rows[j] == table[j]
    {
      rows[i] := WithSidecar(rows[i], table);
    }
  }

  /** Lines 23, 90 and 93 in order: the inventory is annotated in place and the
      filtered table is returned. */
  method MatchInventory(rows: array<Row>) returns (out: seq<Row>)
    modifies rows
    ensures rows[..] == Annotated(Cleared(old(rows[..])))
    ensures out == MatchedInventory(old(rows[..]))
  {
    AddJsonFileColumn(rows);
    ApplyFindJsonFile(rows);
    out := UnresolvedImages(rows[..]);
  }

  // ---------------------------------------------------------------------------
  // Properties of the annotation

  /** Once the column has been cleared, each row gets what `find_json_file`
      returns for it with no `JsonFile` given, searched in the inventory as it
      was loaded: whatever the loaded file held in that column is discarded. */
  lemma AnnotationAfterClearing(rows: seq<Row>, i: nat)
    requires i < |rows|
    ensures Annotated(Cleared(rows))[i].jsonFile == FindJsonFile(rows[i].(jsonFile := None), rows)
  {
    var c := Cleared(rows);
    assert Paths(c) == Paths(rows);
    assert c[i] == rows[i].(jsonFile := None);
    FindJsonFileReadsOnlyPaths(c[i], c, rows);
  }

  /** Row `i` after the driver: the loaded row with its freshly computed sidecar. */
  lemma AnnotatedClearedRow(rows: seq<Row>, i: nat)
    requires i < |rows|
    ensures Annotated(Cleared(rows))[i] ==
      rows[i].(jsonFile := FindJsonFile(rows[i].(jsonFile := None), rows))
  {
    var c := Cleared(rows);
    AnnotationAfterClearing(rows, i);
    assert c[i] == rows[i].(jsonFile := None);
    assert Annotated(c)[i] == WithSidecar(c[i], c);
  }

  /** Annotating an already annotated table changes nothing: a filled cell is
      returned as it is, and an empty one is searched again in the same paths. */
  lemma AnnotatedIdempotent(rows: seq<Row>)
    ensures Annotated(Annotated(rows)) == Annotated(rows)
  {
    var a := Annotated(rows);
    assert Paths(a) == Paths(rows);
    forall i | 0 <= i < |rows| ensures Annotated(a)[i] == a[i] {
      if rows[i].jsonFile.None? {
        FindJsonFileReadsOnlyPaths(rows[i], rows, a);
      }
    }
  }

  /** A row with a capture time, or one that is not an image, leaves the driver
      with no sidecar, whatever it held before. */
  lemma IneligibleRowsStayEmpty(rows: seq<Row>, i: nat)
    requires i < |rows| && !Eligible(rows[i])
    ensures Annotated(Cleared(rows))[i].jsonFile.None?
  {
    assert Cleared(rows)[i] == rows[i].(jsonFile := None);
  }

  // ---------------------------------------------------------------------------
  // Properties of the output filter

  /** Filtering a concatenation filters each part: the filter keeps rows in
      their table order. */
  lemma {:induction false} UnresolvedImagesAppend(a: seq<Row>, b: seq<Row>)
    ensures UnresolvedImages(a + b) == UnresolvedImages(a) + UnresolvedImages(b)
    decreases |b|
  {
    if |b| == 0 {
      assert a + b == a;
    } else {
      var b' := b[..|b| - 1];
      assert (a + b)[..|a + b| - 1] == a + b';
      UnresolvedImagesAppend(a, b');
    }
  }

  /** A kept row lands right after the kept rows that precede it. */
  lemma KeptRowPosition(rows: seq<Row>, i: nat)
    requires i < |rows| && Eligible(rows[i])
    ensures var p := |UnresolvedImages(rows[..i])|;
      p < |UnresolvedImages(rows)| && UnresolvedImages(rows)[p] == rows[i] &&
      p < |UnresolvedImages(rows[..i + 1])|
  {
    var upto, after := rows[..i + 1], rows[i + 1..];
    assert upto[..|upto| - 1] == rows[..i];
    assert UnresolvedImages(upto) == UnresolvedImages(rows[..i]) + [rows[i]];
    assert rows == upto + after;
    UnresolvedImagesAppend(upto, after);
  }

  /** Filtering a longer prefix of the table never keeps fewer rows. */
  lemma PrefixFilterGrows(rows: seq<Row>, m: nat, n: nat)
    requires m <= n <= |rows|
    ensures |UnresolvedImages(rows[..m])| <= |UnresolvedImages(rows[..n])|
  {
    assert rows[..n] == rows[..m] + rows[m..n];
    UnresolvedImagesAppend(rows[..m], rows[m..n]);
  }

  /** Two kept rows come out in the order they had in the table. */
  lemma UnresolvedImagesKeepOrder(rows: seq<Row>, i: nat, j: nat)
    requires i < j < |rows| && Eligible(rows[i]) && Eligible(rows[j])
    ensures exists p, q ::
      0 <= p < q < |UnresolvedImages(rows)| &&
      UnresolvedImages(rows)[p] == rows[i] && UnresolvedImages(rows)[q] == rows[j]
  {
    var p, q := |UnresolvedImages(rows[..i])|, |UnresolvedImages(rows[..j])|;
    KeptRowPosition(rows, i);
    KeptRowPosition(rows, j);
    PrefixFilterGrows(rows, i + 1, j);
    assert p < q;
  }

  // ---------------------------------------------------------------------------
  // Properties of the whole run

  /** Every output row is an image with no capture time; its sidecar, when it
      has one, is the path of a loaded row, starts with the photo's `dirname` as
      a plain string prefix (a sibling such as `Photos 2020 (1)/` also passes),
      ends with `.json` and is therefore not itself an image. */
  lemma MatchedInventorySidecars(rows: seq<Row>)
    ensures var out := MatchedInventory(rows);
      forall i :: 0 <= i < |out| ==>
        Eligible(out[i]) &&
        (out[i].jsonFile.Some? ==>
          (exists j :: 0 <= j < |rows| && rows[j].sourceFile == out[i].jsonFile.value) &&
          StartsWith(out[i].jsonFile.value, Dirname(out[i].sourceFile)) &&
          EndsWith(out[i].jsonFile.value, ".json") &&
          !IsImage(out[i].jsonFile.value))
  {
    var c := Cleared(rows);
    var a := Annotated(c);
    var out := UnresolvedImages(a);
    forall i | 0 <= i < |out| && out[i].jsonFile.Some?
      ensures (exists j :: 0 <= j < |rows| && rows[j].sourceFile == out[i].jsonFile.value) &&
        StartsWith(out[i].jsonFile.value, Dirname(out[i].sourceFile)) &&
        EndsWith(out[i].jsonFile.value, ".json") &&
        !IsImage(out[i].jsonFile.value)
    {
      UnresolvedImagesMembers(a, out[i]);
      var k :| 0 <= k < |a| && a[k] == out[i];
      AnnotatedSidecar(rows, k);
    }
  }

  /** A sidecar written by the driver names a loaded `.json` file whose path
      starts with the image's `dirname` as a plain string prefix. */
  lemma AnnotatedSidecar(rows: seq<Row>, k: nat)
    requires k < |rows| && Annotated(Cleared(rows))[k].jsonFile.Some?
    ensures var row := Annotated(Cleared(rows))[k];
      var v := row.jsonFile.value;
      (exists j :: 0 <= j < |rows| && rows[j].sourceFile == v) &&
      StartsWith(v, Dirname(row.sourceFile)) && EndsWith(v, ".json") && !IsImage(v)
  {
    var c := Cleared(rows);
    var v := Annotated(c)[k].jsonFile.value;
    assert FindJsonFile(c[k], c) == Some(v);
    FindJsonFileFound(c[k], c);
    var j :| 0 <= j < |c| && c[j].sourceFile == v;
    assert rows[j].sourceFile == v;
    SidecarIsNotImage(v);
  }

  /** The output holds exactly the loaded rows that are images with no capture
      time, each with its freshly computed sidecar. */
  lemma MatchedInventoryRows(rows: seq<Row>, r: Row)
    ensures r in MatchedInventory(rows) <==>
      exists i :: 0 <= i < |rows| && Eligible(rows[i]) &&
        r == rows[i].(jsonFile := FindJsonFile(rows[i].(jsonFile := None), rows))
  {
    var a := Annotated(Cleared(rows));
    UnresolvedImagesMembers(a, r);
    if r in MatchedInventory(rows) {
      var i :| 0 <= i < |a| && a[i] == r;
      AnnotatedClearedRow(rows, i);
    }
    if exists i :: 0 <= i < |rows| && Eligible(rows[i]) &&
        r == rows[i].(jsonFile := FindJsonFile(rows[i].(jsonFile := None), rows)) {
      var i :| 0 <= i < |rows| && Eligible(rows[i]) &&
        r == rows[i].(jsonFile := FindJsonFile(rows[i].(jsonFile := None), rows));
      AnnotatedClearedRow(rows, i);
    }
  }
}
