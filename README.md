# MUSE ECG extractor, modelled in Dafny

This project models the computational core of a small toolkit that reads GE
MUSE resting-ECG XML exports. The toolkit has three parts:

- **Waveform decoding** (`decode_waveform`). A lead's `WaveFormData` is base 64
  text (section 4 of RFC 4648) holding signed 16-bit little-endian samples.
  The decoder scales each sample by the lead's `LeadAmplitudeUnitsPerBit`.
  A trailing odd byte is ignored. Failure yields an error value, not an
  exception.
- **Lead assembly** (`get_lead_data`). A map of the twelve standard leads
  starts empty. The `LeadData` of every rhythm waveform is decoded into it,
  and a later lead of the same name overwrites an earlier one. Lead III and
  the augmented leads aVR, aVL and aVF are then recomputed from leads I and II
  by the Einthoven and Goldberger relations.
- **Metadata export**. `extract_xml` builds one row per document:
  - integer measurements come from `get_int_or_none`;
  - the two diagnosis fields concatenate the `DiagnosisStatement` texts.

  `clean_row_for_tsv` and the cleaning loop of `write_metadata` escape the
  line breaks in every string value, so each TSV record stays on one line.
  `write_metadata_batch` writes one row per document that extracts and skips
  the ones that raise. Whether a header is written depends on the append
  flag and on whether the output file exists.

Modules, one per file:

| file | module | models |
|---|---|---|
| `results.dfy` | `Results` | `Option` and `Result` |
| `pytext.dfy` | `PyText` | the Python `str` operations used: `strip`, `upper`, `lower`, `isdigit` with `int`, `replace` |
| `base64.dfy` | `Base64` | strict RFC 4648 base 64, decoder and encoder |
| `waveform_decoder.dfy` | `WaveformDecoder` | `decode_waveform` |
| `lead_assembler.dfy` | `LeadAssembler` | `get_lead_data`, as a method with loops proved against functions |
| `metadata.dfy` | `Metadata` | `get_int_or_none`, the diagnosis loops, the row built by `extract_xml` |
| `tsv.dfy` | `TsvExport` | `clean_row_for_tsv`, the cleaning loop and header decision of `write_metadata`, the loop of `write_metadata_batch` |

Abstractions:

- A parsed document is a value. For lead assembly it is a sequence of
  `Waveform(waveformType, leadData)`. For metadata it is a `MuseDocument`:
  what `findtext` returns for each element path, plus the two lists of
  `Statement(stmtText, stmtFlag)`. Missing children are `None`.
- Samples and scales are exact `real`s.
- A dictionary row is a sequence of `Field(name, value)` in insertion order.
- The imperative code (`get_lead_data`, the diagnosis loops, the two cleaning
  loops, the batch loop) is written as methods with loops. Each is proved
  equal to a specification function, and the properties are proved about
  that function. The exception is the cleaning loop of the older script,
  `CleanRowInOrder`, whose contract gives the name and the cleaned value of
  every field directly.

## Model

| member | source | states |
|---|---|---|
| PyText.Strip | MUSE_ECG_Extractor_KW_metadata_v2.py:24 | `strip()` returns the slice of its input between the leading and the trailing whitespace runs, and the result neither starts nor ends with whitespace |
| PyText.StripPadded | MUSE_ECG_Extractor_KW_metadata_v2.py:24 | whitespace around a word that has none at its ends is exactly what `strip()` removes |
| PyText.Upper | MUSE_ECG_Extractor.py:145 | `upper()` keeps the length, turns each lower-case ASCII letter into its capital and keeps every other character, so no lower-case letter is left |
| PyText.Lower | MUSE_ECG_Extractor.py:136 | `lower()` keeps the length, turns each ASCII capital into its lower-case letter and keeps every other character, so no capital is left |
| PyText.UpperMatches | MUSE_ECG_Extractor.py:145 | upper-casing a text gives a word without lower-case letters exactly when the text spells that word in any mixture of cases |
| PyText.LowerMatches | MUSE_ECG_Extractor.py:136 | lower-casing a text gives a word without capitals exactly when the text spells that word in any mixture of cases |
| PyText.CaseMapsForget | MUSE_ECG_Extractor.py:136 | `upper()` after `lower()` is `upper()`, and `lower()` after `upper()` is `lower()` |
| PyText.StripIsWord | MUSE_ECG_Extractor_KW_metadata_v2.py:72 | `strip()` gives a word without whitespace at its ends exactly when the text is that word with only whitespace around it |
| PyText.DecimalRoundTrip | MUSE_ECG_Extractor_KW_metadata_v2.py:24 | `int()` of the decimal text of `n` is `n` |
| Base64.SextetOfInverse | MUSE_ECG_Extractor.py:22 | the base 64 alphabet is a bijection onto the values 0 to 63: every character with a value is the character that encodes it, and the pad character `=` has no value |
| Base64.Decode | MUSE_ECG_Extractor.py:22 | a text that decodes has a length that is a multiple of four, and 4k characters give between 3k-2 and 3k bytes |
| Base64.DecodeEncode | MUSE_ECG_Extractor.py:22 | decoding the base 64 encoding of any byte string gives it back |
| WaveformDecoder.Int16LE | MUSE_ECG_Extractor.py:26 | a `<h` sample lies in [-32768, 32767] and is congruent to `lo + 256*hi` modulo 65536 |
| WaveformDecoder.UnpackInt16LE | MUSE_ECG_Extractor.py:23-26 | there are `len(data) // 2` samples, and sample k is the int16 of bytes 2k and 2k+1 |
| WaveformDecoder.Scale | MUSE_ECG_Extractor.py:29 | scaling keeps the length and multiplies each sample by the scale |
| WaveformDecoder.DecodeWaveform | MUSE_ECG_Extractor.py:20-31 | the result is an error exactly when base 64 decoding fails; otherwise it has `len(bytes) // 2` samples, sample k being the int16 of bytes 2k and 2k+1 times the scale |
| WaveformDecoder.TrailingByteIgnored | MUSE_ECG_Extractor.py:23-26 | an odd trailing byte adds no sample and causes no error |
| WaveformDecoder.UnpackPack | MUSE_ECG_Extractor.py:26 | unpacking the little-endian packing of int16 values gives them back |
| WaveformDecoder.DecodeWaveformRoundTrip | MUSE_ECG_Extractor.py:22-29 | int16 samples packed little-endian, base 64 encoded and decoded at scale 1 come back unchanged |
| WaveformDecoder.DecodeEmptyBlob | MUSE_ECG_Extractor.py:20-29 | an empty blob decodes to an empty series at any scale |
| WaveformDecoder.DecodeExample | MUSE_ECG_Extractor.py:20-29 | "AQD//w==" at scale 2.0 decodes to [2.0, -2.0] |
| LeadAssembler.SeedLeads | MUSE_ECG_Extractor.py:121-134 | the seeded map has exactly the keys I, II, III, aVR, aVL, aVF and V1 to V6 |
| LeadAssembler.SeedHasTwelveEmptyLeads | MUSE_ECG_Extractor.py:121-134 | the seeded map has twelve entries, each an empty series |
| LeadAssembler.LeadKey | MUSE_ECG_Extractor.py:145 | the key of a present `LeadID` spells the trimmed id ignoring case and has no lower-case letter; a missing `LeadID` gives the `[Unknown LeadID]` placeholder, outside the lead set; no key is aVR, aVL or aVF |
| LeadAssembler.LeadKeyMatches | MUSE_ECG_Extractor.py:145 | a `LeadID` is stored under a name without lower-case letters exactly when, trimmed, it spells that name in any mixture of cases |
| LeadAssembler.LeadKeyIgnoresCaseAndPadding | MUSE_ECG_Extractor.py:145 | a `LeadID` that spells I, II or V1 to V6 in any case, with any whitespace around it, is stored under that lead |
| LeadAssembler.LowerCaseLeadIdExample | MUSE_ECG_Extractor.py:145 | the id " v1 " is stored under V1 |
| LeadAssembler.DecodeLead | MUSE_ECG_Extractor.py:146-152 | a lead without `WaveFormData` is an empty series; otherwise its trimmed text is decoded at its `LeadAmplitudeUnitsPerBit`, or at 1.0 when that is absent; the result is an error exactly when the trimmed text is not valid base 64 |
| LeadAssembler.IsRhythm | MUSE_ECG_Extractor.py:136-137 | a waveform is kept exactly when its type spells `rhythm` in any mixture of cases, with no whitespace around it |
| LeadAssembler.StoreLead | MUSE_ECG_Extractor.py:148-154 | storing one lead never adds or removes a key, and a lead whose key is not in the map leaves the map unchanged |
| LeadAssembler.StoreLeads | MUSE_ECG_Extractor.py:141-157 | the inner loop never adds or removes a key |
| LeadAssembler.StoreWaveforms | MUSE_ECG_Extractor.py:135-157 | the outer loop keeps the key set, and its only failure is a waveform without a type |
| LeadAssembler.Elementwise | MUSE_ECG_Extractor.py:159-162 | an elementwise numpy expression over I and II has the broadcast length, and element k applies the operation to the broadcast elements k |
| LeadAssembler.Derive | MUSE_ECG_Extractor.py:159-162 | the derivation succeeds exactly when I and II are both numeric and their lengths broadcast; it raises `LimbLeadShapeMismatch` when only the shapes fail and `LimbLeadNotNumeric` otherwise; on success the map has the old keys plus III, aVR, aVL and aVF, and every other key keeps its value |
| LeadAssembler.AssembleLeads | MUSE_ECG_Extractor.py:107-164 | an assembled lead map has exactly the twelve lead keys |
| LeadAssembler.GetLeadData | MUSE_ECG_Extractor.py:107-164 | the method with its two nested loops computes `AssembleLeads` |
| LeadAssembler.StoreRhythmLeads | MUSE_ECG_Extractor.py:141-157 | the inner loop over the `LeadData` of one waveform computes `StoreLeads` |
| LeadAssembler.DeriveLimbLeads | MUSE_ECG_Extractor.py:159-162 | the four derived assignments compute `Derive`, and succeed exactly when I and II are numeric and their shapes broadcast |
| LeadAssembler.AssemblySucceeds | MUSE_ECG_Extractor.py:107-164 | a document raises `MissingWaveformType` when some waveform has no type; otherwise it succeeds exactly when the recorded leads I and II are numeric and broadcast together, and raises the matching error when they are not |
| LeadAssembler.ErrorPersists | MUSE_ECG_Extractor.py:135-136 | once a waveform without a type has raised, the whole document raises |
| LeadAssembler.StoreLeadsLastWins | MUSE_ECG_Extractor.py:141-157 | after the inner loop a key holds the decoding of the last lead stored under it, or its old value when there is none |
| LeadAssembler.StoreLeadsAppend | MUSE_ECG_Extractor.py:141-157 | storing two runs of leads is storing the first run and then the second |
| LeadAssembler.StoreWaveformsFlattens | MUSE_ECG_Extractor.py:135-157 | the outer loop stores exactly the leads of the rhythm waveforms in document order when every waveform has a type, and raises otherwise |
| LeadAssembler.RecordedLead | MUSE_ECG_Extractor.py:121-157 | each of I, II and V1 to V6 holds the decoding of the last rhythm `LeadData` with that trimmed, upper-cased id, or an empty series when there is none |
| LeadAssembler.AugmentedNeverStored | MUSE_ECG_Extractor.py:145-148 | no `LeadData` ever reaches aVR, aVL or aVF |
| LeadAssembler.EinthovenGoldberger | MUSE_ECG_Extractor.py:159-162 | the derived leads have the broadcast length of I and II, and aVR + aVL + aVF = 0; at every sample, with I and II broadcast, III = II - I, aVR = -(I + II)/2, aVL = I - II/2 and aVF = II - I/2; for I and II of equal length these hold elementwise, and I + III = II |
| LeadAssembler.DeriveIdentities | MUSE_ECG_Extractor.py:159-162 | whenever the four derived assignments succeed, the derived leads satisfy the Einthoven and Goldberger relations stated for `EinthovenGoldberger` |
| LeadAssembler.NoRhythmAllEmpty | MUSE_ECG_Extractor.py:135-162 | a document with no rhythm waveform yields the twelve empty leads, derived ones included |
| Metadata.IntOrNone | MUSE_ECG_Extractor_KW_metadata_v2.py:22-24 | the result is an integer exactly when the text is present and its stripped form is a non-empty run of digits, and it is never negative (the same function appears at MUSE_ECG_Extractor_KW_metadata.py:21-23 and MUSE_ECG_Extractor.py:46-48) |
| Metadata.IntOrNoneRoundTrip | MUSE_ECG_Extractor_KW_metadata_v2.py:22-24 | the decimal text of n, with any whitespace around it, reads as n |
| Metadata.IntOrNoneRejectsSign | MUSE_ECG_Extractor_KW_metadata_v2.py:22-24 | a negative number's text reads as `None` |
| Metadata.EndsLine | MUSE_ECG_Extractor_KW_metadata_v2.py:72 | a flag ends the line exactly when it is present and is the word `ENDSLINE`, in capitals, with only whitespace around it |
| Metadata.EndsLineAcceptsPadding | MUSE_ECG_Extractor_KW_metadata_v2.py:72 | the flag " ENDSLINE\n" ends the line |
| Metadata.EndsLineIsCaseSensitive | MUSE_ECG_Extractor_KW_metadata_v2.py:72 | the flag "endsline" does not end the line |
| Metadata.Contribution | MUSE_ECG_Extractor_KW_metadata_v2.py:70-75 | a statement appends its trimmed text, then a space, then a newline exactly when its flag is `ENDSLINE`; nothing else |
| Metadata.ConcatDiagnosis | MUSE_ECG_Extractor_KW_metadata_v2.py:68-88 | the loop over `DiagnosisStatement` and the final strip compute `Diagnosis`: an error when a statement has no `StmtText`, otherwise `None` or the stripped accumulator (the same loop appears at MUSE_ECG_Extractor_KW_metadata.py:67-87 and MUSE_ECG_Extractor.py:82-102) |
| Metadata.AccumulatedAppend | MUSE_ECG_Extractor_KW_metadata_v2.py:68-75 | statements contribute in document order: the accumulator of a concatenation is the concatenation of the accumulators |
| Metadata.DiagnosisNoneIffNoStatements | MUSE_ECG_Extractor_KW_metadata_v2.py:87-88 | a diagnosis field is `None` exactly when there are no statements |
| Metadata.BlankStatementGivesEmptyText | MUSE_ECG_Extractor_KW_metadata_v2.py:87 | a single blank statement gives the empty string, not `None` |
| Metadata.IntField | MUSE_ECG_Extractor_KW_metadata_v2.py:22-24 | a measurement field is either `None` or an integer; it is an integer exactly when the element's text is present and strips to a run of digits, and then it is the value `get_int_or_none` reads, never negative |
| Metadata.HeaderIsDistinct | MUSE_ECG_Extractor_KW_metadata_v2.py:92-128 | no name appears twice in `FIELDNAMES` |
| Metadata.EcgRow | MUSE_ECG_Extractor_KW_metadata_v2.py:30-66 | the keys of the extracted dictionary are exactly `FIELDNAMES`, in the same order |
| Metadata.ExtractXml | MUSE_ECG_Extractor_KW_metadata_v2.py:10-90 | `extract_xml` computes `ExtractedRow`: an error for a document that is not well-formed or has a statement without text, otherwise a row whose keys are `FIELDNAMES` |
| Metadata.ExtractionSucceeds | MUSE_ECG_Extractor_KW_metadata_v2.py:27-88 | `extract_xml` returns a row exactly when the file parses and every `DiagnosisStatement` of both lists has a `StmtText`; a file that does not parse raises the parse error, and any other failure is the missing `StmtText` |
| Metadata.ExtractedDiagnosisFields | MUSE_ECG_Extractor_KW_metadata_v2.py:44-88 | `diagnosis_statement` and `original_diagnosis` hold the stripped accumulated texts of their statement lists, and each is `None` exactly when its list is empty |
| Metadata.ExtractedDemographics | MUSE_ECG_Extractor_KW_metadata_v2.py:31-43 | `file_path` holds the file name; `patient_id` and each text demographic hold the text of their own element, or `Unknown` when it is missing; `patient_age` is read by `get_int_or_none` |
| Metadata.ExtractedMeasurements | MUSE_ECG_Extractor_KW_metadata_v2.py:46-65 | each measurement key holds `get_int_or_none` of the element of its name under `RestingECGMeasurements`, and each `Original_` key the same under `OriginalRestingECGMeasurements`; each is `None` or a non-negative integer |
| TsvExport.EscapeIsOneLine | MUSE_ECG_Extractor_KW_metadata_v2.py:152 | the three chained `replace` calls turn each CRLF, lone CR and lone LF into backslash-n, as a one-pass reference definition does |
| TsvExport.EscapeNewlinesOneLine | MUSE_ECG_Extractor_KW_metadata_v2.py:152 | an escaped string contains no CR or LF, and escaping it again changes nothing |
| TsvExport.CleanValue | MUSE_ECG_Extractor_KW_metadata_v2.py:151-154 | a string is cleaned to its one-pass escaping, in which each CRLF, lone CR and lone LF becomes backslash-n; the result has no CR or LF and escaping it again changes nothing; any other value passes through unchanged (the same cleaning appears at MUSE_ECG_Extractor_KW_metadata.py:102-105) |
| TsvExport.CleanedForTsv | MUSE_ECG_Extractor_KW_metadata_v2.py:143-155 | the cleaned row has exactly the keys of `FIELDNAMES`, in order |
| TsvExport.CleanRowForTsv | MUSE_ECG_Extractor_KW_metadata_v2.py:143-155 | the loop over `FIELDNAMES` computes `CleanedForTsv` |
| TsvExport.GetMissing | MUSE_ECG_Extractor_KW_metadata_v2.py:150 | `get` of a key the row does not hold is `None` |
| TsvExport.GetFirst | MUSE_ECG_Extractor_KW_metadata_v2.py:150 | `get` of a key the row holds is the value stored under it |
| TsvExport.CleanedKeepsValue | MUSE_ECG_Extractor_KW_metadata_v2.py:149-154 | a header name the input row holds is cleaned from the value stored under it |
| TsvExport.CleanedHeaderRow | MUSE_ECG_Extractor_KW_metadata_v2.py:143-155 | a row whose keys are `FIELDNAMES` is cleaned in place: every key keeps its position and its value is replaced by its cleaned form |
| TsvExport.CleanedMissingIsNull | MUSE_ECG_Extractor_KW_metadata_v2.py:149-150 | a header name missing from the input row is cleaned to `None` |
| TsvExport.CleanedIsOneLine | MUSE_ECG_Extractor_KW_metadata_v2.py:151-152 | no string of a cleaned row contains CR or LF |
| TsvExport.CleanedForTsvIdempotent | MUSE_ECG_Extractor_KW_metadata_v2.py:143-155 | cleaning a cleaned row changes nothing |
| TsvExport.CleanRowInOrder | MUSE_ECG_Extractor_KW_metadata.py:100-105 | the cleaned row has the same keys in the same order as the input, each value cleaned |
| TsvExport.WritesHeader | MUSE_ECG_Extractor_KW_metadata.py:113-115 | the header is skipped exactly when appending to a file that exists (the same decision appears at MUSE_ECG_Extractor_KW_metadata_v2.py:176-178) |
| TsvExport.WriteMetadataBatch | MUSE_ECG_Extractor_KW_metadata_v2.py:158-190 | the batch writes a header per `WritesHeader`, then `BatchRows` (the cleaned row of each file that extracts, in order), and `n` is the number of rows written |
| TsvExport.ProcessFile | MUSE_ECG_Extractor_KW_metadata_v2.py:181-189 | one file yields its cleaned row when extraction succeeds and no row when it raises, never more than one |
| TsvExport.BatchRowsAppend | MUSE_ECG_Extractor_KW_metadata_v2.py:180-190 | files are processed independently: the rows of a concatenation are the rows of its parts |
| TsvExport.FailureIsSkipped | MUSE_ECG_Extractor_KW_metadata_v2.py:180-190 | a file whose extraction raises contributes no row and does not stop the later files |
| TsvExport.BatchCountsSuccesses | MUSE_ECG_Extractor_KW_metadata_v2.py:182-185 | the counter `n` equals the number of files that extract, which is at most the number of files |
| TsvExport.BatchRowsWellFormed | MUSE_ECG_Extractor_KW_metadata_v2.py:183-184 | every written row has the keys of `FIELDNAMES` in order, and no string in it contains CR or LF |

## Left out

- XML parsing (`etree.parse`, `find`, `findtext`, `xpath`) is not modelled. A parsed document is an input value, and a file that does not parse is `XmlFile(path, None)`.
- File and console I/O is not modelled: `Path.exists`, `open`, the `csv` writer's quoting, progress and warning `print`s, `iter_xml_files`, the `argparse` entry points. The batch returns the header decision, the rows it would write and the counter; `exists()` is a parameter.
- `plot_ecgs` (matplotlib) is not modelled.
- Floating point is not modelled. Samples, scales and the derived leads are exact reals, and `float()` parsing of `LeadAmplitudeUnitsPerBit` happens outside the model, which receives the parsed value.
- WaveformDecoder.DecodeWaveform: Python's default `b64decode` discards characters outside the alphabet. The model decodes strictly (canonical alphabet, length a multiple of four, `=` only as final padding), so such texts are errors here.
- WaveformDecoder.DecodeWaveform: the error value is `Err(InvalidBase64)`, not the source's message string.
- Wrapping that error string in `np.array` and storing it is modelled as storing the `Err` value. Deriving from an `Err` lead I or II is the document error `LimbLeadNotNumeric`, where numpy raises.
- The `.text` of an element that is present but empty is `None` in lxml, and `.strip()` on it raises. The model treats only a missing `WaveformType` and a missing `StmtText` as raising. `LeadID`, `WaveFormData` and `StmtFlag` children are either absent (`None`) or carry text. A `LeadAmplitudeUnitsPerBit` that is present but empty (`AttributeError`) or whose text `float()` rejects (`ValueError`) makes `get_lead_data` raise for a lead whose key is in the map; the model receives the scale already parsed, so it has neither error.
- PyText.Upper and PyText.Lower map ASCII letters only, and PyText.IsDigits accepts ASCII digits only. Python's Unicode case mapping and Unicode digits (for which `isdigit()` holds but `int()` fails) are out of scope.
- The default `scale=4.88` of `decode_waveform` is not modelled: the only caller, `get_lead_data`, always passes a scale.
- `extract_xml` of MUSE_ECG_Extractor.py builds a shorter dictionary with a `leads` placeholder of empty arrays. Its row is not modelled. Its `get_int_or_none` and its diagnosis loops are the ones modelled.
- The `diag_statement.tag.lower() == 'diagnosisstatement'` test always holds for the elements the XPath selects, so the model has no branch for it.
- `main` of MUSE_ECG_Extractor_KW_metadata.py cannot run: `csv` is not imported and `write_tsv_row` is undefined. Only the cleaning loop and header decision of `write_metadata` are modelled.
- TsvExport.Get: a Python dictionary has unique keys. A model row is a sequence of fields, and `Get` reads the first field with the name.

Two behaviours of the code worth noting:
- A `LeadData` without `WaveFormData` is stored as an empty series; it is not skipped.
- Leads I and II of unequal lengths raise unless one of them has length 1 and is broadcast; the derived leads are never cut to the shorter one.
