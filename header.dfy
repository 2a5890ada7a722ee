/**
 * Locating the header row of a daily time sheet: the first of the first
 * twenty cells of column A whose stripped, lower-cased text is "dátum".
 */
module Header {
  import opened Wrappers
  import opened Text

  /** How many rows of column A are previewed. */
  const PreviewRows: nat := 20

  /** The header marker after normalization. */
  const Marker: string := "d\U{e1}tum"

  /** The reason a time sheet cannot be loaded. */
  datatype LoadError = MarkerNotFound

  /** The cell's stripped, lower-cased text is the header marker. */
  predicate IsMarker(c: Cell)
  {
    Normalize(CellText(c)) == Marker
  }

  /** The row index of the header: the first marker among the previewed cells, or an error. */
  method FindHeaderRow(columnA: seq<Cell>) returns (r: Result<nat, LoadError>)
    ensures r.Ok? ==> && r.value < PreviewRows && r.value < |columnA|
                      && IsMarker(columnA[r.value])
                      && forall j :: 0 <= j < r.value ==> !IsMarker(columnA[j])
    ensures r.Err? <==> forall j :: 0 <= j < |columnA| && j < PreviewRows ==> !IsMarker(columnA[j])
  {
    var previewed := if |columnA| <= PreviewRows then |columnA| else PreviewRows;
    var headerRow: Option<nat> := None;
    var i := 0;
    while i < previewed
      invariant 0 <= i <= previewed
      invariant headerRow.None?
      invariant forall j :: 0 <= j < i ==> !IsMarker(columnA[j])
    {
      if IsMarker(columnA[i]) {
        headerRow := Some(i);
        break;
      }
      i := i + 1;
    }
    if headerRow.None? {
      return Err(MarkerNotFound);
    }
    return Ok(headerRow.value);
  }

  /** Case and surrounding white space do not matter: "  DÁTUM " marks the header. */
  lemma UpperCaseMarker()
    ensures IsMarker(Some(" D\U{c1}TUM\t"))
  {
    var s := " D\U{c1}TUM\t";
    assert Trim(s) == "D\U{c1}TUM" by {
      assert s[1..] == "D\U{c1}TUM\t";
      assert s[1..][..5] == "D\U{c1}TUM";
    }
    assert Lower("D\U{c1}TUM") == Marker;
  }
}
