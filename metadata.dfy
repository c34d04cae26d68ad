/** `extract_xml`: the metadata row of one MUSE document. Its integer fields
    come from `get_int_or_none`, and its two diagnosis fields concatenate the
    document's `DiagnosisStatement` elements. */
module Metadata {
  import opened Results
  import opened PyText

  /** A cell of the row: a string, a Python `int`, or `None`. */
  datatype Value = Str(s: string) | Int(i: int) | Null

  /** One key of the row dictionary with its value; a row lists them in the
      dictionary's insertion order. */
  datatype Field = Field(name: string, value: Value)
  type Row = seq<Field>

  function Names(row: Row): (names: seq<string>)
    ensures |names| == |row|
  {
    seq(|row|, i requires 0 <= i < |row| => row[i].name)
  }

  /** One `DiagnosisStatement`: the texts of its `StmtText` and `StmtFlag`
      children, `None` when the child is missing or has no text. */
  datatype Statement = Statement(stmtText: Option<string>, stmtFlag: Option<string>)

  /** A parsed MUSE document as `extract_xml` reads it: what `findtext` returns
      for each element path present, and the statements under `Diagnosis` and
      under `OriginalDiagnosis`, in document order. */
  datatype MuseDocument = MuseDocument(
    texts: map<string, string>,
    diagnosis: seq<Statement>,
    originalDiagnosis: seq<Statement>)

  /** An input file: its path, and its document unless it is not well-formed XML. */
  datatype XmlFile = XmlFile(path: string, content: Option<MuseDocument>)

  /** The ways `extract_xml` raises. */
  datatype ExtractError =
    | NotWellFormed    // `etree.parse` fails
    | MissingStmtText  // `.text.strip()` on a missing `StmtText`

  /** `root.findtext(path)`: `None` when no element matches. */
  function FindText(doc: MuseDocument, path: string): Option<string> {
    if path in doc.texts then Some(doc.texts[path]) else None
  }

  /** `root.findtext(path, default='Unknown')`. */
  function TextOrUnknown(doc: MuseDocument, path: string): Value {
    Str(FindText(doc, path).GetOr("Unknown"))
  }

  /** `get_int_or_none` on the text `findtext` returned: an integer exactly when
      the text is present and, once stripped, a non-empty run of digits; so it
      is never negative. */
  function IntOrNone(val: Option<string>): (r: Option<int>)
    ensures r.Some? <==> val.Some? && IsDigits(Strip(val.value))
    ensures r.Some? ==> r.value >= 0
  {
    if val.Some? && IsDigits(Strip(val.value)) then Some(DigitsValue(Strip(val.value))) else None
  }

  /** A decimal number, with any whitespace around it, reads back as itself. */
  lemma IntOrNoneRoundTrip(n: nat, pre: string, post: string)
    requires forall i :: 0 <= i < |pre| ==> IsSpace(pre[i])
    requires forall i :: 0 <= i < |post| ==> IsSpace(post[i])
    ensures IntOrNone(Some(pre + DecimalString(n) + post)) == Some(n)
  {
    var digits := DecimalString(n);
    StripPadded(pre, digits, post);
    DecimalRoundTrip(n);
  }

  /** A signed number is not a digit string, so it reads as `None`, not as a
      negative value. */
  lemma IntOrNoneRejectsSign(n: nat)
    ensures IntOrNone(Some("-" + DecimalString(n))) == None
  {
    var s := "-" + DecimalString(n);
    assert s[0] == '-' && !IsSpace(s[0]);
    assert Strip(s)[0] == '-';
  }

  /** A measurement field: the integer `get_int_or_none` reads at `path`, or
      `None`. It is never negative. */
  function IntField(doc: MuseDocument, path: string): (v: Value)
    ensures v.Int? || v.Null?
    ensures v.Int? <==> FindText(doc, path).Some? && IsDigits(Strip(FindText(doc, path).value))
    ensures v.Int? ==> IntOrNone(FindText(doc, path)) == Some(v.i) && v.i >= 0
  {
    match IntOrNone(FindText(doc, path))
    case Some(n) => Int(n)
    case None => Null
  }

  /** `StmtFlag` text, stripped, is `ENDSLINE`: the flag is that word, in
      capitals, with only whitespace around it. A missing flag is not. */
  function EndsLine(flag: Option<string>): (b: bool)
    ensures b <==> flag.Some? && PaddedWord(flag.value, "ENDSLINE")
  {
    if flag.Some? then
      StripIsWord(flag.value, "ENDSLINE");
      Strip(flag.value) == "ENDSLINE"
    else false
  }

  predicate AllTextsPresent(stmts: seq<Statement>) {
    forall k :: 0 <= k < |stmts| ==> stmts[k].stmtText.Some?
  }

  /** What one statement appends: its stripped text and a space, then a newline
      when it is flagged `ENDSLINE`. */
  function Contribution(st: Statement): (piece: string)
    requires st.stmtText.Some?
    ensures var text := Strip(st.stmtText.value);
      && |piece| == |text| + (if EndsLine(st.stmtFlag) then 2 else 1)
      && piece[..|text|] == text && piece[|text|] == ' '
      && (piece[|piece| - 1] == '\n' <==> EndsLine(st.stmtFlag))
      && (piece[|piece| - 1] == ' ' <==> !EndsLine(st.stmtFlag))
  {
    Strip(st.stmtText.value) + " " + (if EndsLine(st.stmtFlag) then "\n" else "")
  }

  /** The accumulator after the statements of `stmts`, in order. */
  function Accumulated(stmts: seq<Statement>): string
    requires AllTextsPresent(stmts)
    decreases |stmts|
  {
    if stmts == [] then ""
    else Accumulated(stmts[..|stmts| - 1]) + Contribution(stmts[|stmts| - 1])
  }

  /** One diagnosis field of the row: `extract_xml` raises on a statement
      without text; otherwise the field is `None` when the accumulator is empty
      and the stripped accumulator when it is not. */
  function Diagnosis(stmts: seq<Statement>): Result<Option<string>, ExtractError> {
    if !AllTextsPresent(stmts) then Err(MissingStmtText)
    else
      var acc := Accumulated(stmts);
      Ok(if acc != "" then Some(Strip(acc)) else None)
  }

  /** The loop of `extract_xml` over one list of `DiagnosisStatement`s, with
      the strip or `None` that follows it. */
  method ConcatDiagnosis(stmts: seq<Statement>) returns (r: Result<Option<string>, ExtractError>)
    ensures r == Diagnosis(stmts)
  {
    var acc := "";
    var i := 0;
    while i < |stmts|
      invariant 0 <= i <= |stmts|
      invariant AllTextsPresent(stmts[..i])
      invariant acc == Accumulated(stmts[..i])
    {
      var st := stmts[i];
      if st.stmtText.None? {
        MissingTextRaises(stmts, i);
        return Err(MissingStmtText);
      }
      ghost var before := acc;
      var text := Strip(st.stmtText.value);
      acc := acc + text + " ";
      if EndsLine(st.stmtFlag) {
        acc := acc + "\n";
        Regroup(before, text, " ", "\n");
      } else {
        Regroup(before, text, " ", "");
      }
      AccumulatedStep(stmts, i);
      i := i + 1;
    }
    assert stmts[..i] == stmts;
    r := Ok(if acc != "" then Some(Strip(acc)) else None);
    DiagnosisOfAccumulated(stmts, acc);
  }

  lemma MissingTextRaises(stmts: seq<Statement>, i: nat)
    requires i < |stmts| && stmts[i].stmtText.None?
    ensures Diagnosis(stmts) == Err(MissingStmtText)
  {
  }

  lemma DiagnosisOfAccumulated(stmts: seq<Statement>, acc: string)
    requires AllTextsPresent(stmts) && acc == Accumulated(stmts)
    ensures Diagnosis(stmts) == Ok(if acc != "" then Some(Strip(acc)) else None)
  {
  }

  /** One statement more: the accumulator grows by the statement's piece. */
  lemma AccumulatedStep(stmts: seq<Statement>, i: nat)
    requires i < |stmts| && AllTextsPresent(stmts[..i]) && stmts[i].stmtText.Some?
    ensures AllTextsPresent(stmts[..i + 1])
    ensures Accumulated(stmts[..i + 1]) == Accumulated(stmts[..i]) + Contribution(stmts[i])
  {
    assert stmts[..i + 1][..i] == stmts[..i];
  }

  /** Regrouping the two appends of the loop body. */
  lemma Regroup(a: string, b: string, c: string, d: string)
    ensures a + b + c + d == a + (b + c + d)
    ensures a + b + c == a + (b + c + "")
  {
  }

  /** Statements contribute in document order: the accumulator of a
      concatenation is the concatenation of the accumulators. */
  lemma {:induction false} AccumulatedAppend(a: seq<Statement>, b: seq<Statement>)
    requires AllTextsPresent(a) && AllTextsPresent(b)
    ensures AllTextsPresent(a + b)
    ensures Accumulated(a + b) == Accumulated(a) + Accumulated(b)
    decreases |b|
  {
    assert forall k :: 0 <= k < |a + b| ==> (a + b)[k] == if k < |a| then a[k] else b[k - |a|];
    if b == [] {
      assert a + b == a;
    } else {
      var init := b[..|b| - 1];
      assert (a + b)[..|a + b| - 1] == a + init;
      AccumulatedAppend(a, init);
    }
  }

  /** A diagnosis field is `None` exactly when there are no statements, since
      every statement appends at least a space. */
  lemma DiagnosisNoneIffNoStatements(stmts: seq<Statement>)
    requires Diagnosis(stmts).Ok?
    ensures Diagnosis(stmts).value.None? <==> stmts == []
  {
    if stmts != [] {
      var piece := Contribution(stmts[|stmts| - 1]);
      assert |Accumulated(stmts)| >= |piece| >= 1;
    }
  }

  /** Whitespace around the flag does not matter. */
  lemma EndsLineAcceptsPadding()
    ensures EndsLine(Some(" ENDSLINE\n"))
  {
    assert " ENDSLINE\n" == " " + "ENDSLINE" + "\n";
    StripPadded(" ", "ENDSLINE", "\n");
  }

  /** The flag is compared case-sensitively. */
  lemma EndsLineIsCaseSensitive()
    ensures !EndsLine(Some("endsline"))
  {
    assert "endsline" == "" + "endsline" + "";
    StripPadded("", "endsline", "");
  }

  /** A statement of blank text still makes the field present, as `""`. */
  lemma BlankStatementGivesEmptyText()
    ensures Diagnosis([Statement(Some("  "), None)]) == Ok(Some(""))
  {
    var stmts := [Statement(Some("  "), None)];
    assert Strip("  ") == "" by {
      assert IsSpace(' ');
      assert Indent("  ") == 2;
    }
    assert stmts[..0] == [];
    assert Accumulated(stmts) == " ";
    assert Indent(" ") == 1;
  }

  /** The demographic fields read as text, and the element each is read from,
      at the same position. */
  const TEXT_KEYS: seq<string> := [
    "patient_gender", "patient_race", "priority", "location", "ecg_date",
    "acquisition_software_version", "analysis_software_version",
    "overread_lastname", "overread_firstname", "admit_diagnosis"]
  const TEXT_PATHS: seq<string> := [
    "./PatientDemographics/Gender", "./PatientDemographics/Race",
    "./TestDemographics/Priority", "./TestDemographics/LocationName",
    "./TestDemographics/AcquisitionDate", "./TestDemographics/AcquisitionSoftwareVersion",
    "./TestDemographics/AnalysisSoftwareVersion", "./TestDemographics/OverreaderLastName",
    "./TestDemographics/OverreaderFirstName", "./Order/AdmitDiagnosis"]

  /** The measurements, each read from the element of the same name in both
      measurement groups; the keys of the original ones, at the same position. */
  const MEASUREMENTS: seq<string> := [
    "VentricularRate", "AtrialRate", "PRInterval", "QRSDuration", "QTInterval",
    "QTCorrected", "PAxis", "RAxis", "TAxis", "QRSCount"]
  const ORIGINAL_MEASUREMENTS: seq<string> := [
    "Original_VentricularRate", "Original_AtrialRate", "Original_PRInterval",
    "Original_QRSDuration", "Original_QTInterval", "Original_QTCorrected",
    "Original_PAxis", "Original_RAxis", "Original_TAxis", "Original_QRSCount"]

  /** The element paths of the measurement groups. */
  const MEASURED: string := "./RestingECGMeasurements/"
  const ORIGINAL: string := "./OriginalRestingECGMeasurements/"

  /** The header row of the batch export: the keys of the row, in order. */
  const FIELD_NAMES: seq<string> :=
    ["file_path", "patient_id", "patient_age"] + TEXT_KEYS +
    ["diagnosis_statement", "original_diagnosis"] + MEASUREMENTS + ORIGINAL_MEASUREMENTS

  /** No header name appears twice. */
  lemma HeaderIsDistinct()
    ensures forall i, j :: 0 <= i < j < |FIELD_NAMES| ==> FIELD_NAMES[i] != FIELD_NAMES[j]
  {
    HeaderDistinctBefore15();
    HeaderDistinctBefore25();
    HeaderDistinctBefore35();
  }

  lemma HeaderDistinctBefore15()
    ensures forall i, j :: 0 <= i < j < 15 ==> FIELD_NAMES[i] != FIELD_NAMES[j]
  {
  }

  lemma HeaderDistinctBefore25()
    ensures forall i, j :: 0 <= i < j && 15 <= j < 25 ==> FIELD_NAMES[i] != FIELD_NAMES[j]
  {
  }

  lemma HeaderDistinctBefore35()
    ensures forall i, j :: 0 <= i < j && 25 <= j < 35 ==> FIELD_NAMES[i] != FIELD_NAMES[j]
  {
  }

  function OptionalText(s: Option<string>): Value {
    if s.Some? then Str(s.value) else Null
  }

  lemma NamesAppend(a: Row, b: Row)
    ensures Names(a + b) == Names(a) + Names(b)
  {
  }

  /** The demographic fields read as text, `Unknown` for a missing element. */
  function TextFields(doc: MuseDocument): (row: Row)
    ensures Names(row) == TEXT_KEYS
  {
    seq(|TEXT_KEYS|, i requires 0 <= i < |TEXT_KEYS| =>
      Field(TEXT_KEYS[i], TextOrUnknown(doc, TEXT_PATHS[i])))
  }

  /** The current measurements, read by `get_int_or_none`. */
  function Measured(doc: MuseDocument): (row: Row)
    ensures Names(row) == MEASUREMENTS
  {
    seq(|MEASUREMENTS|, i requires 0 <= i < |MEASUREMENTS| =>
      Field(MEASUREMENTS[i], IntField(doc, MEASURED + MEASUREMENTS[i])))
  }

  /** The original measurements, read by `get_int_or_none`. */
  function Originals(doc: MuseDocument): (row: Row)
    ensures Names(row) == ORIGINAL_MEASUREMENTS
  {
    seq(|MEASUREMENTS|, i requires 0 <= i < |MEASUREMENTS| =>
      Field(ORIGINAL_MEASUREMENTS[i], IntField(doc, ORIGINAL + MEASUREMENTS[i])))
  }

  /** The dictionary `extract_xml` builds, once both diagnosis fields are known.
      Its keys are exactly the export header, in the same order. */
  function EcgRow(path: string, doc: MuseDocument, diagnosis: Option<string>, original: Option<string>): (row: Row)
    ensures Names(row) == FIELD_NAMES
  {
    var head := [
      Field("file_path", Str(path)),
      Field("patient_id", TextOrUnknown(doc, ".//PatientID")),
      Field("patient_age", IntField(doc, "./PatientDemographics/PatientAge"))];
    var diagnoses := [
      Field("diagnosis_statement", OptionalText(diagnosis)),
      Field("original_diagnosis", OptionalText(original))];
    NamesAppend(head, TextFields(doc));
    NamesAppend(head + TextFields(doc), diagnoses);
    NamesAppend(head + TextFields(doc) + diagnoses, Measured(doc));
    NamesAppend(head + TextFields(doc) + diagnoses + Measured(doc), Originals(doc));
    head + TextFields(doc) + diagnoses + Measured(doc) + Originals(doc)
  }

  /** What `extract_xml(filename)` returns or raises. */
  function ExtractedRow(file: XmlFile): (r: Result<Row, ExtractError>)
    ensures r.Ok? ==> Names(r.value) == FIELD_NAMES
  {
    match file.content
    case None => Err(NotWellFormed)
    case Some(doc) =>
      match Diagnosis(doc.diagnosis)
      case Err(e) => Err(e)
      case Ok(diagnosis) =>
        match Diagnosis(doc.originalDiagnosis)
        case Err(e) => Err(e)
        case Ok(original) => Ok(EcgRow(file.path, doc, diagnosis, original))
  }

  /** `extract_xml(filename)`: parse, build the row, then run the two diagnosis loops. */
  method ExtractXml(file: XmlFile) returns (r: Result<Row, ExtractError>)
    ensures r == ExtractedRow(file)
    ensures r.Ok? ==> Names(r.value) == FIELD_NAMES
  {
    if file.content.None? {
      return Err(NotWellFormed);
    }
    var doc := file.content.value;
    var diagnosis := ConcatDiagnosis(doc.diagnosis);
    if diagnosis.Err? {
      return Err(diagnosis.error);
    }
    var original := ConcatDiagnosis(doc.originalDiagnosis);
    if original.Err? {
      return Err(original.error);
    }
    r := Ok(EcgRow(file.path, doc, diagnosis.value, original.value));
  }

  /** `extract_xml` returns a row exactly when the file is well-formed and every
      `DiagnosisStatement` of both lists has a `StmtText`; it raises
      `NotWellFormed` before looking at any statement. */
  lemma ExtractionSucceeds(file: XmlFile)
    ensures ExtractedRow(file).Ok? <==>
      file.content.Some? &&
      AllTextsPresent(file.content.value.diagnosis) &&
      AllTextsPresent(file.content.value.originalDiagnosis)
    ensures file.content.None? ==> ExtractedRow(file) == Err(NotWellFormed)
    ensures file.content.Some? && ExtractedRow(file).Err? ==> ExtractedRow(file).error == MissingStmtText
  {
    if file.content.Some? {
      var doc := file.content.value;
      assert Diagnosis(doc.diagnosis).Ok? <==> AllTextsPresent(doc.diagnosis);
      assert Diagnosis(doc.originalDiagnosis).Ok? <==> AllTextsPresent(doc.originalDiagnosis);
    }
  }

  /** The document an extracted row was built from, and the row as `EcgRow`
      builds it from the two diagnosis texts. */
  lemma ExtractedFrom(file: XmlFile) returns (doc: MuseDocument)
    requires ExtractedRow(file).Ok?
    ensures file.content == Some(doc)
    ensures Diagnosis(doc.diagnosis).Ok? && Diagnosis(doc.originalDiagnosis).Ok?
    ensures ExtractedRow(file).value ==
      EcgRow(file.path, doc, Diagnosis(doc.diagnosis).value, Diagnosis(doc.originalDiagnosis).value)
  {
    doc := file.content.value;
  }

  /** The two diagnosis fields of an extracted row hold the diagnosis texts of
      their lists; each is `None` exactly when its list is empty. */
  lemma ExtractedDiagnosisFields(file: XmlFile)
    requires ExtractedRow(file).Ok?
    ensures var doc, row := file.content.value, ExtractedRow(file).value;
      && Diagnosis(doc.diagnosis).Ok? && Diagnosis(doc.originalDiagnosis).Ok?
      && row[13] == Field("diagnosis_statement", OptionalText(Diagnosis(doc.diagnosis).value))
      && row[14] == Field("original_diagnosis", OptionalText(Diagnosis(doc.originalDiagnosis).value))
      && (row[13].value == Null <==> doc.diagnosis == [])
      && (row[14].value == Null <==> doc.originalDiagnosis == [])
  {
    var doc := ExtractedFrom(file);
    DiagnosisNoneIffNoStatements(doc.diagnosis);
    DiagnosisNoneIffNoStatements(doc.originalDiagnosis);
  }

  /** The path and the demographic fields of an extracted row: each text read
      from its element, or `Unknown` when the element is missing, and the age
      as `get_int_or_none` reads it. */
  lemma ExtractedDemographics(file: XmlFile)
    requires ExtractedRow(file).Ok?
    ensures var doc, row := file.content.value, ExtractedRow(file).value;
      && row[0] == Field("file_path", Str(file.path))
      && row[1] == Field("patient_id", TextOrUnknown(doc, ".//PatientID"))
      && row[2] == Field("patient_age", IntField(doc, "./PatientDemographics/PatientAge"))
      && forall i :: 0 <= i < |TEXT_KEYS| ==>
           row[3 + i] == Field(TEXT_KEYS[i], TextOrUnknown(doc, TEXT_PATHS[i]))
  {
    var doc := ExtractedFrom(file);
  }

  /** The measurement fields of an extracted row: the current measurements,
      then the original ones, each read by `get_int_or_none` from the element
      of its name, so each is a non-negative integer or `None`. */
  lemma ExtractedMeasurements(file: XmlFile)
    requires ExtractedRow(file).Ok?
    ensures var doc, row := file.content.value, ExtractedRow(file).value;
      forall i :: 0 <= i < |MEASUREMENTS| ==>
        && row[15 + i] == Field(MEASUREMENTS[i], IntField(doc, MEASURED + MEASUREMENTS[i]))
        && row[25 + i] == Field(ORIGINAL_MEASUREMENTS[i], IntField(doc, ORIGINAL + MEASUREMENTS[i]))
    ensures var row := ExtractedRow(file).value;
      forall i :: 15 <= i < |row| ==> row[i].value.Null? || (row[i].value.Int? && row[i].value.i >= 0)
  {
    var doc := ExtractedFrom(file);
  }
}
