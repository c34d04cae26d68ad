/** The TSV export: `clean_row_for_tsv` and `write_metadata_batch` of the
    batch extractor, and the cleaning loop and header decision of the
    single-file `write_metadata`. Every string value is put on one line by
    escaping its line breaks. */
module TsvExport {
  import opened Results
  import opened PyText
  import opened Metadata

  /** `v.replace("\r\n", "\n").replace("\r", "\n").replace("\n", "\\n")`. */
  function EscapeNewlines(s: string): string {
    Replace(Replace(Replace(s, "\r\n", "\n"), "\r", "\n"), "\n", "\\n")
  }

  /** Reference definition, in one left-to-right pass: every CRLF, every lone
      CR and every lone LF becomes the two characters backslash and `n`. */
  function OneLine(s: string): string
    decreases |s|
  {
    if s == [] then []
    else if |s| >= 2 && s[0] == '\r' && s[1] == '\n' then "\\n" + OneLine(s[2..])
    else if s[0] == '\r' || s[0] == '\n' then "\\n" + OneLine(s[1..])
    else [s[0]] + OneLine(s[1..])
  }

  predicate NoLineBreaks(s: string) {
    forall i :: 0 <= i < |s| ==> s[i] != '\r' && s[i] != '\n'
  }

  /** `Replace` with a one-character pattern, one character at a time. */
  lemma ReplaceCharCons(c: char, t: string, p: char, rep: string)
    ensures Replace([c] + t, [p], rep) == (if c == p then rep else [c]) + Replace(t, [p], rep)
  {
    assert ([c] + t)[0] == c;
    assert ([p] <= [c] + t) == (c == p);
    assert ([c] + t)[1..] == t;
  }

  /** `Replace(_, "\r\n", "\n")` on a text that starts with CRLF. */
  lemma ReplaceCrLfHead(t: string)
    ensures Replace("\r\n" + t, "\r\n", "\n") == "\n" + Replace(t, "\r\n", "\n")
  {
    assert "\r\n" <= "\r\n" + t;
    assert ("\r\n" + t)[2..] == t;
  }

  /** `Replace(_, "\r\n", "\n")` on a text that does not start with CRLF. */
  lemma ReplaceCrLfOther(c: char, t: string)
    requires c != '\r' || t == [] || t[0] != '\n'
    ensures Replace([c] + t, "\r\n", "\n") == [c] + Replace(t, "\r\n", "\n")
  {
    assert ([c] + t)[0] == c;
    if t != [] {
      assert ([c] + t)[1] == t[0];
    }
    assert !("\r\n" <= [c] + t);
    assert ([c] + t)[1..] == t;
  }

  /** The three chained replacements escape exactly as the one-pass reference. */
  lemma {:induction false} EscapeIsOneLine(s: string)
    ensures EscapeNewlines(s) == OneLine(s)
    decreases |s|
  {
    if s != [] {
      if |s| >= 2 && s[0] == '\r' && s[1] == '\n' {
        var t := s[2..];
        assert s == "\r\n" + t;
        ReplaceCrLfHead(t);
        var r1 := Replace(t, "\r\n", "\n");
        ReplaceCharCons('\n', r1, '\r', "\n");
        ReplaceCharCons('\n', Replace(r1, "\r", "\n"), '\n', "\\n");
        EscapeIsOneLine(t);
      } else {
        var c, t := s[0], s[1..];
        assert s == [c] + t;
        ReplaceCrLfOther(c, t);
        var r1 := Replace(t, "\r\n", "\n");
        ReplaceCharCons(c, r1, '\r', "\n");
        var r2 := Replace(r1, "\r", "\n");
        if c == '\r' || c == '\n' {
          ReplaceCharCons('\n', r2, '\n', "\\n");
        } else {
          ReplaceCharCons(c, r2, '\n', "\\n");
        }
        EscapeIsOneLine(t);
      }
    }
  }

  /** The escaped text holds no line break. */
  lemma {:induction false} OneLineHasNoBreaks(s: string)
    ensures NoLineBreaks(OneLine(s))
    decreases |s|
  {
    if s != [] {
      if |s| >= 2 && s[0] == '\r' && s[1] == '\n' {
        OneLineHasNoBreaks(s[2..]);
      } else {
        OneLineHasNoBreaks(s[1..]);
      }
    }
  }

  /** A text without line breaks is left as it is. */
  lemma {:induction false} OneLineKeepsPlain(s: string)
    requires NoLineBreaks(s)
    ensures OneLine(s) == s
    decreases |s|
  {
    if s != [] {
      OneLineKeepsPlain(s[1..]);
      assert s == [s[0]] + s[1..];
    }
  }

  /** Escaping puts the text on one line, and escaping again changes nothing. */
  lemma EscapeNewlinesOneLine(s: string)
    ensures NoLineBreaks(EscapeNewlines(s))
    ensures EscapeNewlines(EscapeNewlines(s)) == EscapeNewlines(s)
  {
    EscapeIsOneLine(s);
    OneLineHasNoBreaks(s);
    EscapeIsOneLine(OneLine(s));
    OneLineKeepsPlain(OneLine(s));
  }

  /** One value of the cleaned row: strings are escaped, other values pass
      through unchanged. Cleaning is idempotent. */
  function CleanValue(v: Value): (r: Value)
    ensures r.Str? <==> v.Str?
    ensures r.Str? ==> NoLineBreaks(r.s)
    ensures !v.Str? ==> r == v
    ensures r.Str? ==> EscapeNewlines(r.s) == r.s
    ensures v.Str? ==> r == Str(OneLine(v.s))
  {
    if v.Str? then
      EscapeNewlinesOneLine(v.s);
      EscapeIsOneLine(v.s);
      Str(EscapeNewlines(v.s))
    else v
  }

  /** `row_dict.get(key, None)`: the value of the first field named `key`. */
  function Get(row: Row, key: string): Value
    decreases |row|
  {
    if row == [] then Null
    else if row[0].name == key then row[0].value
    else Get(row[1..], key)
  }

  /** A key the row does not hold reads as `None`. */
  lemma {:induction false} GetMissing(row: Row, key: string)
    requires forall j :: 0 <= j < |row| ==> row[j].name != key
    ensures Get(row, key) == Null
    decreases |row|
  {
    if row != [] {
      GetMissing(row[1..], key);
    }
  }

  /** A key the row holds reads as the value of some field of that name at or
      before any given one. */
  lemma {:induction false} GetFindsField(row: Row, key: string, i: nat)
    requires i < |row| && row[i].name == key
    ensures exists j :: 0 <= j <= i && row[j].name == key && Get(row, key) == row[j].value
    decreases i
  {
    if row[0].name != key {
      GetFindsField(row[1..], key, i - 1);
      var j :| 0 <= j <= i - 1 && row[1..][j].name == key && Get(row[1..], key) == row[1..][j].value;
      assert row[j + 1] == row[1..][j];
    } else {
      assert row[0].name == key && Get(row, key) == row[0].value;
    }
  }

  /** A key the row holds reads as the value of its first field of that name. */
  lemma {:induction false} GetFirst(row: Row, key: string, j: nat)
    requires j < |row| && row[j].name == key
    requires forall k :: 0 <= k < j ==> row[k].name != key
    ensures Get(row, key) == row[j].value
    decreases j
  {
    if j > 0 {
      assert row[0].name != key;
      GetFirst(row[1..], key, j - 1);
    }
  }

  /** The row `clean_row_for_tsv` returns: one field per header name, in header
      order, holding the cleaned value the input has under that name. */
  function CleanedForTsv(row: Row): (r: Row)
    ensures Names(r) == FIELD_NAMES
  {
    seq(|FIELD_NAMES|, i requires 0 <= i < |FIELD_NAMES| => Field(FIELD_NAMES[i], CleanValue(Get(row, FIELD_NAMES[i]))))
  }

  /** `clean_row_for_tsv(row_dict)`: fills `cleaned` key by key over the header. */
  method CleanRowForTsv(row: Row) returns (cleaned: Row)
    ensures cleaned == CleanedForTsv(row)
  {
    ghost var spec := CleanedForTsv(row);
    cleaned := [];
    var i := 0;
    while i < |FIELD_NAMES|
      invariant 0 <= i <= |FIELD_NAMES|
      invariant cleaned == spec[..i]
    {
      assert spec[..i + 1] == spec[..i] + [spec[i]];
      var k := FIELD_NAMES[i];
      var v := Get(row, k);
      if v.Str? {
        cleaned := cleaned + [Field(k, Str(EscapeNewlines(v.s)))];
      } else {
        cleaned := cleaned + [Field(k, v)];
      }
      i := i + 1;
    }
    assert spec[..i] == spec;
  }

  /** A header name the input row lacks is cleaned to `None`. */
  lemma CleanedMissingIsNull(row: Row, i: nat)
    requires i < |FIELD_NAMES|
    requires forall j :: 0 <= j < |row| ==> row[j].name != FIELD_NAMES[i]
    ensures CleanedForTsv(row)[i].value == Null
  {
    GetMissing(row, FIELD_NAMES[i]);
  }

  /** A header name the input row holds is cleaned from the value of the
      first field of that name. */
  lemma CleanedKeepsValue(row: Row, i: nat, j: nat)
    requires i < |FIELD_NAMES| && j < |row| && row[j].name == FIELD_NAMES[i]
    requires forall k :: 0 <= k < j ==> row[k].name != FIELD_NAMES[i]
    ensures CleanedForTsv(row)[i] == Field(FIELD_NAMES[i], CleanValue(row[j].value))
  {
    GetFirst(row, FIELD_NAMES[i], j);
  }

  /** A row whose keys are the header, as `extract_xml` returns, is cleaned
      field by field: each key keeps its place and its value is cleaned. */
  lemma CleanedHeaderRow(row: Row)
    requires Names(row) == FIELD_NAMES
    ensures forall i :: 0 <= i < |FIELD_NAMES| ==>
              CleanedForTsv(row)[i] == Field(FIELD_NAMES[i], CleanValue(row[i].value))
  {
    HeaderIsDistinct();
    forall i | 0 <= i < |FIELD_NAMES|
      ensures CleanedForTsv(row)[i] == Field(FIELD_NAMES[i], CleanValue(row[i].value))
    {
      assert row[i].name == Names(row)[i];
      forall k | 0 <= k < i
        ensures row[k].name != FIELD_NAMES[i]
      {
        assert row[k].name == Names(row)[k];
      }
      CleanedKeepsValue(row, i, i);
    }
  }

  /** Every string of the cleaned row is on one line. */
  lemma CleanedIsOneLine(row: Row)
    ensures forall i :: 0 <= i < |FIELD_NAMES| && CleanedForTsv(row)[i].value.Str? ==>
              NoLineBreaks(CleanedForTsv(row)[i].value.s)
  {
  }

  /** Cleaning a cleaned row changes nothing. */
  lemma CleanedForTsvIdempotent(row: Row)
    ensures CleanedForTsv(CleanedForTsv(row)) == CleanedForTsv(row)
  {
    var once := CleanedForTsv(row);
    var twice := CleanedForTsv(once);
    forall i | 0 <= i < |FIELD_NAMES| ensures twice[i] == once[i] {
      var key := FIELD_NAMES[i];
      assert once[i].name == key;
      GetFindsField(once, key, i);
      var j :| 0 <= j <= i && once[j].name == key && Get(once, key) == once[j].value;
      assert FIELD_NAMES[j] == key;
      assert once[j].value == CleanValue(Get(row, key)) == once[i].value;
    }
  }

  /** The cleaning loop of `write_metadata`: every field of the row, in its
      order, with its value cleaned. */
  method CleanRowInOrder(row: Row) returns (cleaned: Row)
    ensures Names(cleaned) == Names(row)
    ensures forall i :: 0 <= i < |row| ==> cleaned[i].value == CleanValue(row[i].value)
  {
    cleaned := [];
    var i := 0;
    while i < |row|
      invariant 0 <= i <= |row|
      invariant |cleaned| == i
      invariant forall j :: 0 <= j < i ==> cleaned[j] == Field(row[j].name, CleanValue(row[j].value))
    {
      var k, v := row[i].name, row[i].value;
      if v.Str? {
        cleaned := cleaned + [Field(k, Str(EscapeNewlines(v.s)))];
      } else {
        cleaned := cleaned + [Field(k, v)];
      }
      i := i + 1;
    }
  }

  /** The header decision of `write_metadata` and `write_metadata_batch`:
      the header is skipped exactly when appending to a file that exists. */
  function WritesHeader(append: bool, fileExists: bool): (r: bool)
    ensures !r <==> append && fileExists
  {
    !append || (append && !fileExists)
  }

  /** The rows `write_metadata_batch` writes for the files in order: the
      cleaned row of each file that extracts, nothing for one that raises. */
  function BatchRows(files: seq<XmlFile>): seq<Row>
    decreases |files|
  {
    if files == [] then []
    else
      BatchRows(files[..|files| - 1]) + RowsOf(files[|files| - 1])
  }

  /** What one file adds to the output: its cleaned row, or nothing when its
      extraction raises. */
  function RowsOf(file: XmlFile): (rows: seq<Row>)
    ensures |rows| == if ExtractedRow(file).Ok? then 1 else 0
  {
    match ExtractedRow(file)
    case Ok(row) => [CleanedForTsv(row)]
    case Err(_) => []
  }

  /** The number of files that extract without raising. */
  function Successes(files: seq<XmlFile>): (n: nat)
    ensures n <= |files|
    decreases |files|
  {
    if files == [] then 0
    else Successes(files[..|files| - 1]) + (if ExtractedRow(files[|files| - 1]).Ok? then 1 else 0)
  }

  /** `write_metadata_batch`: whether the header is written, the rows written
      after it, and the final value of the counter `n`. */
  method WriteMetadataBatch(files: seq<XmlFile>, append: bool, fileExists: bool)
    returns (header: bool, rows: seq<Row>, n: nat)
    ensures header == WritesHeader(append, fileExists)
    ensures rows == BatchRows(files)
    ensures n == |rows|
  {
    header := (!append) || (append && !fileExists);
    rows := [];
    n := 0;
    var i := 0;
    while i < |files|
      invariant 0 <= i <= |files|
      invariant rows == BatchRows(files[..i])
      invariant n == |rows|
    {
      BatchRowsStep(files, i);
      var written := ProcessFile(files[i]);
      rows := rows + written;
      n := n + |written|;
      i := i + 1;
    }
    assert files[..i] == files;
  }

  /** The `try` block of the batch loop for one file: extract it and write its
      cleaned row, or write nothing when extraction raises. */
  method ProcessFile(file: XmlFile) returns (written: seq<Row>)
    ensures written == RowsOf(file)
    ensures |written| <= 1
  {
    var ecg := ExtractXml(file);
    if ecg.Ok? {
      var cleaned := CleanRowForTsv(ecg.value);
      written := [cleaned];
    } else {
      written := [];
    }
  }

  lemma BatchRowsStep(files: seq<XmlFile>, i: nat)
    requires i < |files|
    ensures BatchRows(files[..i + 1]) == BatchRows(files[..i]) + RowsOf(files[i])
  {
    assert files[..i + 1][..i] == files[..i];
  }

  /** Files are processed independently: the rows of a concatenation are the
      rows of its parts, so a failing file does not stop the later ones. */
  lemma {:induction false} BatchRowsAppend(a: seq<XmlFile>, b: seq<XmlFile>)
    ensures BatchRows(a + b) == BatchRows(a) + BatchRows(b)
    decreases |b|
  {
    if b == [] {
      assert a + b == a;
    } else {
      var init := b[..|b| - 1];
      assert (a + b)[..|a + b| - 1] == a + init;
      assert (a + b)[|a + b| - 1] == b[|b| - 1];
      BatchRowsAppend(a, init);
    }
  }

  /** A file that fails to extract contributes no row, and the files after it
      are still written. */
  lemma FailureIsSkipped(a: seq<XmlFile>, bad: XmlFile, b: seq<XmlFile>)
    requires ExtractedRow(bad).Err?
    ensures BatchRows(a + [bad] + b) == BatchRows(a) + BatchRows(b)
  {
    BatchRowsStep(a + [bad], |a|);
    assert (a + [bad])[..|a| + 1] == a + [bad] && (a + [bad])[..|a|] == a;
    assert BatchRows(a + [bad]) == BatchRows(a) by {
      assert RowsOf(bad) == [];
    }
    BatchRowsAppend(a + [bad], b);
  }

  /** The counter counts exactly the files that extract. */
  lemma {:induction false} BatchCountsSuccesses(files: seq<XmlFile>)
    ensures |BatchRows(files)| == Successes(files)
    decreases |files|
  {
    if files != [] {
      BatchCountsSuccesses(files[..|files| - 1]);
    }
  }

  /** Every written row has the header's keys, in order, and no line break in
      any string value. */
  lemma {:induction false} BatchRowsWellFormed(files: seq<XmlFile>)
    ensures forall r :: r in BatchRows(files) ==> Names(r) == FIELD_NAMES
    ensures forall r: Row, i :: r in BatchRows(files) && 0 <= i < |r| && r[i].value.Str? ==> NoLineBreaks(r[i].value.s)
    decreases |files|
  {
    if files != [] {
      BatchRowsWellFormed(files[..|files| - 1]);
    }
  }
}
