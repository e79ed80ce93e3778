/** The patient viewer of fe.py: the cap on uploaded scans and the lookup of a
    patient's record by ABHA id in a worksheet, seen as a sequence of rows. */
module PatientViewer {
  import opened Basics
  import opened Text

  /** At most this many uploads are shown in the gallery. */
  const MaxImages: nat := 5

  /** An uploaded temporary file; only its path is used. */
  datatype UploadedFile = UploadedFile(name: string)

  /** `handle_image_upload`: no files (missing or empty list) clears the
      gallery; otherwise the paths of the first five files, in upload order. */
  function HandleImageUpload(files: Option<seq<UploadedFile>>): (gallery: Option<seq<string>>)
    ensures gallery.None? <==> files.None? || files.value == []
    ensures gallery.Some? ==> |gallery.value| == Min(|files.value|, MaxImages)
    ensures gallery.Some? ==>
              forall i :: 0 <= i < |gallery.value| ==> gallery.value[i] == files.value[i].name
  {
    match files
    case None => None
    case Some(fs) =>
      if |fs| == 0 then None
      else
        var kept := if |fs| > MaxImages then fs[..MaxImages] else fs;
        Some(seq(|kept|, i requires 0 <= i < |kept| => kept[i].name))
  }

  /** Files after the fifth never influence the gallery. */
  lemma ExtraUploadsIgnored(files: seq<UploadedFile>, extra: seq<UploadedFile>)
    requires |files| >= MaxImages
    ensures HandleImageUpload(Some(files + extra)) == HandleImageUpload(Some(files))
  {
    var a := HandleImageUpload(Some(files + extra)).value;
    var b := HandleImageUpload(Some(files)).value;
    assert |a| == |b|;
    assert forall i :: 0 <= i < |a| ==> a[i] == b[i] by {
      forall i | 0 <= i < |a| ensures a[i] == b[i] {
        assert (files + extra)[i] == files[i];
      }
    }
    assert a == b;
  }

  /** Uploading again just the files that were kept shows the same gallery. */
  lemma ReuploadingKeptFilesIsStable(files: seq<UploadedFile>)
    ensures HandleImageUpload(Some(files[..Min(|files|, MaxImages)])) == HandleImageUpload(Some(files))
  {
    if |files| > 0 {
      var a := HandleImageUpload(Some(files[..Min(|files|, MaxImages)])).value;
      var b := HandleImageUpload(Some(files)).value;
      assert |a| == |b|;
      assert forall i :: 0 <= i < |a| ==> a[i] == b[i];
      assert a == b;
    }
  }

  /** One worksheet row: column name to the cell as rendered by `str()`. */
  type Row = map<string, string>

  const IdColumn: string := "abha_id"
  const PlaceholderDemographics: string := "*Patient details will appear here after fetching.*"
  const PlaceholderSummary: string := "*Patient summary will appear here after fetching.*"
  const NotAvailable: string := "N/A"
  const NoSummary: string := "No summary available."

  /** The demographic fields shown for a found patient. */
  datatype Demographics = Demographics(
    abhaId: string,
    fullName: string,
    age: string,
    weightKg: string,
    reasonForVisit: string,
    allergies: string,
    medication: string,
    symptoms: string)

  datatype InfoPanel = InfoPlaceholder | Details(patient: Demographics)

  /** The two panels the fetch button fills. */
  datatype PatientView = PatientView(info: InfoPanel, summary: string)

  /** Both placeholder texts: nothing fetched. */
  const Placeholders: PatientView := PatientView(InfoPlaceholder, PlaceholderSummary)

  /** A row belongs to the queried patient when its stripped id equals the stripped query. */
  predicate MatchesId(row: Row, query: string)
  {
    IdColumn in row && Strip(row[IdColumn]) == Strip(query)
  }

  /** The position of the first matching row, if any. */
  function FindFirst(rows: seq<Row>, query: string): (found: Option<nat>)
    ensures found.Some? ==>
              && found.value < |rows| && MatchesId(rows[found.value], query)
              && forall j :: 0 <= j < found.value ==> !MatchesId(rows[j], query)
    ensures found.None? ==> forall j :: 0 <= j < |rows| ==> !MatchesId(rows[j], query)
  {
    if |rows| == 0 then None
    else if MatchesId(rows[0], query) then Some(0)
    else match FindFirst(rows[1..], query)
      case None => None
      case Some(k) => Some(k + 1)
  }

  /** `record.get(column, default)`. */
  function Field(row: Row, column: string, default: string): string
  {
    if column in row then row[column] else default
  }

  /** The demographics of a matched row; its id is shown after stripping, since
      the id column was normalised before the row was selected. */
  function DemographicsOf(row: Row): Demographics
  {
    Demographics(
      if IdColumn in row then Strip(row[IdColumn]) else NotAvailable,
      Field(row, "full_name", NotAvailable),
      Field(row, "Age", NotAvailable),
      Field(row, "weight_kg", NotAvailable),
      Field(row, "reason_for_visit", NotAvailable),
      Field(row, "allergies", NotAvailable),
      Field(row, "Medication", NotAvailable),
      Field(row, "symptoms_description", NotAvailable))
  }

  /** The view of a matched row: its demographics and its summary with every
      literal backslash-n turned into a blank line. */
  function ShowRow(row: Row): PatientView
  {
    PatientView(Details(DemographicsOf(row)), ExpandEscapedNewlines(Field(row, "Summary", NoSummary)))
  }

  /** `fetch_patient_data`: an empty id or no matching row gives the two
      placeholders; otherwise the first matching row, in sheet order, is shown. */
  function FetchPatientData(abhaId: string, rows: seq<Row>): (v: PatientView)
    ensures abhaId == [] ==> v == Placeholders
    ensures (forall j :: 0 <= j < |rows| ==> !MatchesId(rows[j], abhaId)) ==> v == Placeholders
    ensures forall i :: 0 <= i < |rows| && abhaId != [] && MatchesId(rows[i], abhaId)
                        && (forall j :: 0 <= j < i ==> !MatchesId(rows[j], abhaId))
                        ==> v == ShowRow(rows[i])
    ensures v.info.Details? ==> v.info.patient.abhaId == Strip(abhaId) && NoEscapedNewline(v.summary)
  {
    FirstMatchIsFound(rows, abhaId);
    if abhaId == [] then Placeholders
    else match FindFirst(rows, abhaId)
      case None => Placeholders
      case Some(i) => ShowRow(rows[i])
  }

  /** A row that matches with no match before it is the one `FindFirst` returns. */
  lemma FirstMatchIsFound(rows: seq<Row>, query: string)
    ensures forall i :: 0 <= i < |rows| && MatchesId(rows[i], query)
                        && (forall j :: 0 <= j < i ==> !MatchesId(rows[j], query))
                        ==> FindFirst(rows, query) == Some(i)
  {
    forall i | 0 <= i < |rows| && MatchesId(rows[i], query) && (forall j :: 0 <= j < i ==> !MatchesId(rows[j], query))
      ensures FindFirst(rows, query) == Some(i)
    {
      var f := FindFirst(rows, query);
      assert f.Some?;
    }
  }

  /** Blank margins around the query never change the result (for a query
      that is not empty to begin with). */
  lemma QueryPaddingIgnored(left: string, query: string, right: string, rows: seq<Row>)
    requires IsBlank(left) && IsBlank(right) && query != []
    ensures FetchPatientData(left + query + right, rows) == FetchPatientData(query, rows)
  {
    StripIgnoresPadding(left, query, right);
    SameStrippedQuerySameRow(rows, left + query + right, query);
  }

  /** Two queries that strip to the same text select the same row. */
  lemma {:induction false} SameStrippedQuerySameRow(rows: seq<Row>, q1: string, q2: string)
    requires Strip(q1) == Strip(q2)
    ensures FindFirst(rows, q1) == FindFirst(rows, q2)
  {
    if |rows| > 0 {
      SameStrippedQuerySameRow(rows[1..], q1, q2);
    }
  }

  /** Blank margins around a stored id never change the result either. */
  lemma StoredPaddingIgnored(query: string, rows: seq<Row>, i: nat, left: string, right: string)
    requires i < |rows| && IdColumn in rows[i]
    requires IsBlank(left) && IsBlank(right)
    ensures FetchPatientData(query, rows[i := rows[i][IdColumn := left + rows[i][IdColumn] + right]])
            == FetchPatientData(query, rows)
  {
    var padded := rows[i := rows[i][IdColumn := left + rows[i][IdColumn] + right]];
    StripIgnoresPadding(left, rows[i][IdColumn], right);
    assert forall j :: 0 <= j < |rows| ==> (MatchesId(padded[j], query) <==> MatchesId(rows[j], query));
    SameMatchesSameRow(padded, rows, query);
    assert ShowRow(padded[i]) == ShowRow(rows[i]);
  }

  /** Row sequences that agree on which rows match select the same row. */
  lemma {:induction false} SameMatchesSameRow(a: seq<Row>, b: seq<Row>, query: string)
    requires |a| == |b|
    requires forall j :: 0 <= j < |a| ==> (MatchesId(a[j], query) <==> MatchesId(b[j], query))
    ensures FindFirst(a, query) == FindFirst(b, query)
  {
    if |a| > 0 {
      SameMatchesSameRow(a[1..], b[1..], query);
    }
  }

  /** Rows added after a matching row are never shown. */
  lemma LaterRowsIgnored(query: string, rows: seq<Row>, later: seq<Row>, i: nat)
    requires i < |rows| && MatchesId(rows[i], query)
    ensures FetchPatientData(query, rows + later) == FetchPatientData(query, rows)
  {
    var f := FindFirst(rows, query);
    assert f.Some?;
    var k := f.value;
    assert (rows + later)[k] == rows[k];
    assert forall j :: 0 <= j < k ==> (rows + later)[j] == rows[j];
  }

  /** Each column missing from the sheet shows as `N/A` on its own, whatever
      the other columns hold, and a missing summary as the fixed "no summary"
      sentence. */
  lemma MissingColumnsShowFallbacks(row: Row)
    ensures IdColumn !in row ==> DemographicsOf(row).abhaId == NotAvailable
    ensures "full_name" !in row ==> DemographicsOf(row).fullName == NotAvailable
    ensures "Age" !in row ==> DemographicsOf(row).age == NotAvailable
    ensures "weight_kg" !in row ==> DemographicsOf(row).weightKg == NotAvailable
    ensures "reason_for_visit" !in row ==> DemographicsOf(row).reasonForVisit == NotAvailable
    ensures "allergies" !in row ==> DemographicsOf(row).allergies == NotAvailable
    ensures "Medication" !in row ==> DemographicsOf(row).medication == NotAvailable
    ensures "symptoms_description" !in row ==> DemographicsOf(row).symptoms == NotAvailable
    ensures "Summary" !in row ==> ShowRow(row).summary == NoSummary
  {
    assert forall i :: 0 <= i < |NoSummary| ==> NoSummary[i] != '\\';
    ExpandWithoutEscapesIsIdentity(NoSummary);
  }

  /** A query of spaces only is not the empty query: it is looked up, and it
      finds a row whose id is blank. */
  lemma BlankQueryIsLookedUp(query: string, row: Row)
    requires query != [] && IsBlank(query)
    requires IdColumn in row && IsBlank(row[IdColumn])
    ensures FetchPatientData(query, [row]).info.Details?
  {
  }
}
