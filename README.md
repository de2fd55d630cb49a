# Genomic intake server core, in Dafny

A model of the sequential core of a Java patient-record server. Clients send
pipe-delimited requests (`CREATE_PATIENT|{json}|fasta`, `GET_PATIENT|id`,
`UPDATE_PATIENT|id|{json}`, `DELETE_PATIENT|id`) over TLS. The server
validates the FASTA, keeps patients in a map with a counter and a
`patients.csv` table, scans each new genome against a disease catalog with a
Needleman-Wunsch similarity, and answers `SUCCESS|{json}` or
`ERROR|{code,message}`.

One Dafny module per Java class:

| module | file | models |
|---|---|---|
| `Wrappers` | `wrappers.dfy` | `Option`, `Result` and `Outcome` (a result with no value: pass, or fail with an error) |
| `JavaText` | `java_text.dfy` | the Java `String` operations the core relies on: `trim`, the two `split` variants (the one that drops trailing empty pieces and the one with a limit), `replace`, `lastIndexOf`, `String.join`, `Integer.parseInt` and `Long.parseLong` with their ranges, `%06d`, `Boolean.parseBoolean`, the UTF-8 byte length |
| `Json` | `json.dfy` | an abstract `JSONObject` (a map of keys to values) and the strict `getString`/`getInt`/`optString` accessors |
| `Common` | `common.dfy` | `ProtocolConstants` (commands, status words, error codes) and the two kinds of exception: a `ProtocolException` with code and message, or any other exception with only a message |
| `SequenceAligner` | `sequence_aligner.dfy` | the alignment matrix filled in an `array2` by loops, its recurrence as a function, the normalisation and clamp, and the length pre-filter |
| `FastaValidator` | `fasta_validator.dfy` | `validateFasta`, the hex loop of `calculateChecksum` over a digest given as a parameter, `extractIdentifier` |
| `ValidationUtil` | `validation_util.dfy` | `validatePatientMetadata`, `isValidEmail` as a character-level reading of its regular expression, `validateFileSize` |
| `ProtocolRequest` | `protocol_request.dfy` | `parseRequest`: END-marker removal, `trim`, split into at most three parts, the per-command field rules and the re-raise as INVALID_FORMAT |
| `ProtocolResponse` | `protocol_response.dfy` | the `success`/`error` factories, `isSuccess`, `toProtocolString` over a JSON printer given as a parameter |
| `ProtocolClient` | `protocol_client.dfy` | the request strings of each `send*` method, the count-reply parse, and the round trips (and non-round-trips) from client to parser |
| `DiseaseService` | `disease_service.dfy` | catalog loading, `getDisease`, `getDiseaseSequence`, the header and newline cleaning, `checkForMatches` as a loop over the catalog, `escapeCsv` and the report row |
| `PatientRecord` | `patient.dfy` | the `Patient` record, its CSV line and JSON object and their read-back, `PAT%06d` ids, the line-by-line table rewrite |
| `PatientService` | `patient_service.dfy` | the `PatientService` class: fields `patients`, `counter`, `table` (the lines of `patients.csv`), `fastaFiles`, `reports`, the disease catalog; create, get, update, soft delete, load with counter recovery, and their specifications as functions of the old state |
| `ProtocolHandler` | `protocol_handler.dfy` | the END-marker strip of `handleRequest`, the `processRequest` dispatch over the store, the mapping of exceptions to error responses |

Exceptions are values: a Java method that throws returns a `Result` or
`Outcome`, and each catch-and-rethrow (`Failed to parse request: `,
`Failed to update patient: `, `Internal server error: `) is written out.
A Java `null` is `None`. The similarity is an exact `real`.

Where the code and its documentation differ, the model follows the code:
`ValidationUtil` is never called on the create or update path, so a record
with age 0 is stored (`PatientService.MetadataRulesNotApplied`); the FASTA
appended to an UPDATE request is folded into the metadata field and never
reaches the store (`ProtocolClient.UpdateFastaNeverDelivered`); an invalid
FASTA in an update reaches the client as SERVER_ERROR, not INVALID_FASTA
(`PatientService.UpdateHidesFastaCode`); the count request the client sends
parses but is answered as an unknown command
(`ProtocolHandler.CountRequestAnswered`). `CMD_GET_PATIENT_COUNT` is not
defined in `ProtocolConstants.java`; it is taken to be the literal
`GET_PATIENT_COUNT` the client sends.

## Model

| member | source | states |
|---|---|---|
| SequenceAligner.Clean | common-module/src/main/java/com/genomic/common/util/SequenceAligner.java:23-24 | only the characters A, C, G, T, N remain, never more than the input; a one-character input is kept exactly when it is a base; an all-nucleotide input is kept whole and one without nucleotides becomes empty (lower-case bases are dropped, not upper-cased) |
| SequenceAligner.CleanAppend | common-module/src/main/java/com/genomic/common/util/SequenceAligner.java:23 | cleaning a concatenation cleans each part and keeps them in order, so with the one-character case every base of the input survives in its place |
| SequenceAligner.Clamp | common-module/src/main/java/com/genomic/common/util/SequenceAligner.java:57 | the result lies in [0, 1] and equals the input when the input already does |
| SequenceAligner.Similarity | common-module/src/main/java/com/genomic/common/util/SequenceAligner.java:17-58 | the similarity lies in [0, 1] and is exactly 0 when either cleaned sequence is empty |
| SequenceAligner.CalculateSimilarity | common-module/src/main/java/com/genomic/common/util/SequenceAligner.java:17-58 | the loop-filled matrix gives exactly the specified similarity, which lies in [0, 1] |
| SequenceAligner.FillMatrix | common-module/src/main/java/com/genomic/common/util/SequenceAligner.java:31-51 | a fresh (n+1) by (m+1) matrix whose every cell equals the recurrence: boundaries -2i and -2j, interior the best of diagonal plus or minus 1, up -2 and left -2 |
| SequenceAligner.FillRow | common-module/src/main/java/com/genomic/common/util/SequenceAligner.java:43-50 | fills row i with the recurrence from row i-1 and leaves every other row untouched |
| SequenceAligner.IsPotentialMatch | common-module/src/main/java/com/genomic/common/util/SequenceAligner.java:69-78 | true exactly when twice the patient length reaches the disease length and the similarity reaches the threshold |
| SequenceAligner.ScoreUpperBound | common-module/src/main/java/com/genomic/common/util/SequenceAligner.java:42-55 | a cell score plus twice the length difference never exceeds the shorter prefix length, so the normalised ratio is at most 1 |
| SequenceAligner.NormalisedAtMostOne | common-module/src/main/java/com/genomic/common/util/SequenceAligner.java:54-55 | the normalised corner score is at most 1 before clamping |
| SequenceAligner.ScoreTranspose | common-module/src/main/java/com/genomic/common/util/SequenceAligner.java:42-50 | swapping the sequences transposes the matrix |
| SequenceAligner.SimilaritySymmetric | common-module/src/main/java/com/genomic/common/util/SequenceAligner.java:17-58 | the similarity does not depend on the order of its arguments |
| SequenceAligner.ScoreDiagonal | common-module/src/main/java/com/genomic/common/util/SequenceAligner.java:42-50 | aligning a sequence with itself scores its length on the diagonal |
| SequenceAligner.NormalisedSelf | common-module/src/main/java/com/genomic/common/util/SequenceAligner.java:54-55 | a non-empty sequence normalises to exactly 1 against itself |
| SequenceAligner.SimilarityIdentical | common-module/src/main/java/com/genomic/common/util/SequenceAligner.java:54-57 | a sequence with at least one nucleotide has similarity exactly 1 with itself |
| SequenceAligner.LowerCaseScoresZero | common-module/src/main/java/com/genomic/common/util/SequenceAligner.java:23-29 | lower-case acgt scores 0 against any sequence |
| FastaValidator.FirstBadLine | common-module/src/main/java/com/genomic/common/util/FastaValidator.java:43-49 | no result exactly when every trimmed line from the start index is a non-empty run of A, C, G, T, N; otherwise the first index of a line that is not |
| FastaValidator.ValidateFasta | common-module/src/main/java/com/genomic/common/util/FastaValidator.java:22-50 | passes exactly when the content is present and not blank, splits into at least two lines, has a trimmed header of '>' plus an identifier and only sequence lines after it; every rejection carries INVALID_FASTA, and missing content reports that the FASTA is empty |
| FastaValidator.HeaderAloneRejected | common-module/src/main/java/com/genomic/common/util/FastaValidator.java:27-30 | '>x' followed by a newline is refused as having fewer than two lines, since the trailing empty piece is dropped |
| FastaValidator.CarriageReturnsAccepted | common-module/src/main/java/com/genomic/common/util/FastaValidator.java:33-49 | a header and a sequence line each ending in CR LF are accepted |
| FastaValidator.CarriageReturnLines | common-module/src/main/java/com/genomic/common/util/FastaValidator.java:27 | splitting on newlines keeps the carriage return at the end of each line |
| FastaValidator.CarriageReturnTrimmed | common-module/src/main/java/com/genomic/common/util/FastaValidator.java:44 | trimming removes a trailing carriage return |
| FastaValidator.BlankInteriorLineRejected | common-module/src/main/java/com/genomic/common/util/FastaValidator.java:43-48 | a blank line between header and sequence is refused |
| FastaValidator.ToHexString | common-module/src/main/java/com/genomic/common/util/FastaValidator.java:66 | the unpadded hex text of a byte has one digit exactly when the byte is below 16, else two |
| FastaValidator.CalculateChecksum | common-module/src/main/java/com/genomic/common/util/FastaValidator.java:59-71 | the loop builds exactly the two-digit-per-byte lower-case hex rendering of the digest, twice as long as the digest |
| FastaValidator.HexPairDigits | common-module/src/main/java/com/genomic/common/util/FastaValidator.java:66-68 | each byte renders as two lower-case hex digits whose value is the byte |
| FastaValidator.HexOfLength | common-module/src/main/java/com/genomic/common/util/FastaValidator.java:65-71 | the rendering is twice as long as the digest |
| FastaValidator.HexOfAlphabet | common-module/src/main/java/com/genomic/common/util/FastaValidator.java:65-71 | the rendering uses only lower-case hex digits |
| FastaValidator.HexOfIsHexText | common-module/src/main/java/com/genomic/common/util/FastaValidator.java:65-71 | the rendering is an even-length lower-case hex text |
| FastaValidator.DecodeHexOfSnoc | common-module/src/main/java/com/genomic/common/util/FastaValidator.java:65-71 | decoding the rendering of a digest extended by one byte extends the decoding by that byte |
| FastaValidator.DecodeHexOf | common-module/src/main/java/com/genomic/common/util/FastaValidator.java:65-71 | decoding the rendering gives back the digest |
| FastaValidator.HexOfInjective | common-module/src/main/java/com/genomic/common/util/FastaValidator.java:65-71 | different digests never render to the same checksum |
| FastaValidator.ExtractIdentifier | common-module/src/main/java/com/genomic/common/util/FastaValidator.java:83-90 | 'unknown' when the split gives no lines; an exception exactly when the trimmed first line is empty |
| FastaValidator.IdentifierOfValidFasta | common-module/src/main/java/com/genomic/common/util/FastaValidator.java:83-88 | for accepted FASTA the identifier is the trimmed header without its '>' and is not empty |
| FastaValidator.NewlinesOnlyIsUnknown | common-module/src/main/java/com/genomic/common/util/FastaValidator.java:84-89 | content of a single newline yields 'unknown' |
| ValidationUtil.CheckText | common-module/src/main/java/com/genomic/common/util/ValidationUtil.java:26-32 | passes exactly when the key holds a non-blank string; a non-string value raises the JSON exception; otherwise the field's INVALID_FORMAT message |
| ValidationUtil.CheckAge | common-module/src/main/java/com/genomic/common/util/ValidationUtil.java:34-36 | passes exactly when the age reads as an int in 1..150; an unreadable age raises the JSON exception; otherwise the age message |
| ValidationUtil.CheckSex | common-module/src/main/java/com/genomic/common/util/ValidationUtil.java:38-40 | passes exactly when sex is the string M or F |
| ValidationUtil.IsValidEmailIff | common-module/src/main/java/com/genomic/common/util/ValidationUtil.java:46-48 | the email test holds exactly when some non-empty prefix of local characters is followed by '@' and a non-empty remainder without line terminators |
| ValidationUtil.CheckEmail | common-module/src/main/java/com/genomic/common/util/ValidationUtil.java:42-44 | passes exactly when email is a string matching that pattern |
| ValidationUtil.ValidatePatientMetadata | common-module/src/main/java/com/genomic/common/util/ValidationUtil.java:20-45 | passes exactly when metadata is present and every rule holds; null metadata has its own message; every rule failure is INVALID_FORMAT |
| ValidationUtil.MissingNameReportedFirst | common-module/src/main/java/com/genomic/common/util/ValidationUtil.java:26-28 | a missing full name is the failure reported, whatever else is wrong |
| ValidationUtil.AgeBounds | common-module/src/main/java/com/genomic/common/util/ValidationUtil.java:34-36 | ages 1 and 150 pass, 0 and 151 are refused with the age message |
| ValidationUtil.ValidateFileSize | common-module/src/main/java/com/genomic/common/util/ValidationUtil.java:56-62 | passes exactly when the size is at most 10 485 760 bytes, otherwise the 10MB message |
| ProtocolRequest.Parts | common-module/src/main/java/com/genomic/common/ProtocolRequest.java:41-44 | cleaning and the limited split give between one and three parts |
| ProtocolRequest.ParseParts | common-module/src/main/java/com/genomic/common/ProtocolRequest.java:50-113 | accepts exactly the part lists each command's rule allows and then delivers the fields that rule assigns |
| ProtocolRequest.ParseRequest | common-module/src/main/java/com/genomic/common/ProtocolRequest.java:36-120 | succeeds exactly when the parts of the cleaned message are accepted and then delivers them; every failure is INVALID_FORMAT with a message starting 'Failed to parse request: ' |
| ProtocolRequest.CleaningReformsMarker | common-module/src/main/java/com/genomic/common/ProtocolRequest.java:41 | deleting END from EENDND leaves END, so cleaning can leave a marker behind |
| ProtocolRequest.HeaderLosesMarker | common-module/src/main/java/com/genomic/common/ProtocolRequest.java:41 | a FASTA header containing END loses it before validation |
| ProtocolRequest.CleanWithoutMarker | common-module/src/main/java/com/genomic/common/ProtocolRequest.java:41 | text without END passes both deletions unchanged |
| ProtocolResponse.SuccessData | common-module/src/main/java/com/genomic/common/ProtocolResponse.java:10-12 | status SUCCESS carrying the data and no error code or message |
| ProtocolResponse.SuccessMessage | common-module/src/main/java/com/genomic/common/ProtocolResponse.java:14-18 | status SUCCESS whose data has the single key message holding the text |
| ProtocolResponse.Error | common-module/src/main/java/com/genomic/common/ProtocolResponse.java:20-22 | status ERROR, no data, the given code and message |
| ProtocolResponse.ErrorPayload | common-module/src/main/java/com/genomic/common/ProtocolResponse.java:33-36 | the error object holds a code or message key exactly when the response has one, and no other keys |
| ProtocolResponse.StatusText | common-module/src/main/java/com/genomic/common/ProtocolResponse.java:26-27 | the rendered status is SUCCESS or ERROR |
| ProtocolResponse.WireSuccessPrefix | common-module/src/main/java/com/genomic/common/ProtocolResponse.java:26-31 | the wire text starts with SUCCESS and the delimiter exactly when the response is a success |
| ProtocolResponse.WireOfFailure | common-module/src/main/java/com/genomic/common/ProtocolResponse.java:32-37 | a non-success renders as ERROR, the delimiter and the printed error object |
| ProtocolResponse.WireOfEmptySuccess | common-module/src/main/java/com/genomic/common/ProtocolResponse.java:31 | a success with no data renders as SUCCESS, the delimiter and {} |
| ProtocolResponse.ErrorPayloadOfError | common-module/src/main/java/com/genomic/common/ProtocolResponse.java:33-37 | the error object of an error response has exactly the keys code and message with its values |
| ProtocolResponse.WireStatusField | common-module/src/main/java/com/genomic/common/ProtocolResponse.java:24-39 | the first delimiter of the wire text ends the status field |
| ProtocolClient.CreateRequest | client-module/src/main/java/com/genomic/client/ProtocolClient.java:33-35 | the command word is the first field of the request |
| ProtocolClient.GetRequest | client-module/src/main/java/com/genomic/client/ProtocolClient.java:62 | the command word is the first field of the request |
| ProtocolClient.DeleteRequest | client-module/src/main/java/com/genomic/client/ProtocolClient.java:152 | the command word is the first field of the request |
| ProtocolClient.UpdateRequest | client-module/src/main/java/com/genomic/client/ProtocolClient.java:116-124 | the command word is the first field; with no FASTA, or a blank one, the request is command, id and JSON joined by the delimiter |
| ProtocolClient.UpdateRoundTrip | client-module/src/main/java/com/genomic/client/ProtocolClient.java:116-124 | a request built with no FASTA or a blank one, for an id without delimiter or END and JSON without END, parses exactly when the JSON text without its trailing blanks does, and then gives UPDATE_PATIENT with the trimmed id, that JSON and no FASTA |
| ProtocolClient.ParseCountReply | client-module/src/main/java/com/genomic/client/ProtocolClient.java:88-93 | a number is the int read from the trimmed second colon field; a reply with fewer than two fields fails |
| ProtocolClient.IdRoundTrip | client-module/src/main/java/com/genomic/client/ProtocolClient.java:62 | a GET or DELETE request for any id without delimiter or END parses back to that command and the trimmed id |
| ProtocolClient.GetRoundTrip | client-module/src/main/java/com/genomic/client/ProtocolClient.java:62 | parsing the GET request for any id without delimiter or END gives GET_PATIENT with the trimmed id and nothing else |
| ProtocolClient.DeleteRoundTrip | client-module/src/main/java/com/genomic/client/ProtocolClient.java:152 | parsing the DELETE request for any id without delimiter or END gives DELETE_PATIENT with the trimmed id and nothing else |
| ProtocolClient.CreateRoundTrip | client-module/src/main/java/com/genomic/client/ProtocolClient.java:33-35 | parsing the CREATE request gives CREATE_PATIENT with the parsed metadata and the FASTA with trailing blanks trimmed |
| ProtocolClient.UpdateLineParse | client-module/src/main/java/com/genomic/client/ProtocolClient.java:116-124 | an UPDATE line with a fourth field parses only if the JSON with the FASTA appended parses, and never delivers a FASTA |
| ProtocolClient.UpdateFastaNeverDelivered | client-module/src/main/java/com/genomic/client/ProtocolClient.java:121-124 | the FASTA appended by the client is folded into the metadata field and never reaches the server as a FASTA |
| ProtocolClient.UpdateRequestParse | common-module/src/main/java/com/genomic/common/ProtocolRequest.java:74-88 | a three-part UPDATE parses exactly when its JSON does, with the trimmed id and no FASTA |
| ProtocolClient.CountRequestParses | client-module/src/main/java/com/genomic/client/ProtocolClient.java:80 | the count request parses, with the command word as its patient id |
| ProtocolClient.BareGetRejected | common-module/src/main/java/com/genomic/common/ProtocolRequest.java:65-69 | GET_PATIENT without an id is refused with its INVALID_FORMAT message |
| ProtocolClient.CountReplyOfNumber | client-module/src/main/java/com/genomic/client/ProtocolClient.java:88-93 | a reply of caption, colon, space and the digits of n reads back as n |
| DiseaseService.ParseCatalogRow | server-module/src/main/java/com/genomic/server/service/DiseaseService.java:82-91 | a row with fewer than three comma fields is skipped; a disease is read only from a row with at least three |
| DiseaseService.CatalogRowRead | server-module/src/main/java/com/genomic/server/service/DiseaseService.java:82-89 | a row of comma-free fields with an int severity yields the disease of the trimmed id and name and that severity; its file is the trimmed fourth field when there is one, else the trimmed id plus .fasta |
| DiseaseService.ParseCatalogRowFails | server-module/src/main/java/com/genomic/server/service/DiseaseService.java:82-91 | a row raises exactly when it has three fields and the trimmed severity is not an int |
| DiseaseService.ParsedRows | server-module/src/main/java/com/genomic/server/service/DiseaseService.java:76-81 | one parse per line after the header |
| DiseaseService.LoadDiseasesFromCatalog | server-module/src/main/java/com/genomic/server/service/DiseaseService.java:64-95 | succeeds exactly when the catalog function does, giving its diseases over the sequence files, keyed by id |
| DiseaseService.PutRows | server-module/src/main/java/com/genomic/server/service/DiseaseService.java:76-93 | the loop puts each data row in turn and stops at the first refused one, exactly as the catalog fold says |
| DiseaseService.CatalogRowsNext | server-module/src/main/java/com/genomic/server/service/DiseaseService.java:82-91 | one more row raises, is skipped, or puts the disease under its id |
| DiseaseService.CatalogRowsStop | server-module/src/main/java/com/genomic/server/service/DiseaseService.java:72-94 | after an exception the later rows are never read |
| DiseaseService.CatalogRowsLatest | server-module/src/main/java/com/genomic/server/service/DiseaseService.java:91 | an id is in the catalog exactly when some row read it, and holds the last such row |
| DiseaseService.CatalogRowsIds | server-module/src/main/java/com/genomic/server/service/DiseaseService.java:91 | every disease is stored under its own id |
| DiseaseService.CatalogRowsFail | server-module/src/main/java/com/genomic/server/service/DiseaseService.java:76-93 | the load fails exactly when some row raises |
| DiseaseService.CatalogContents | server-module/src/main/java/com/genomic/server/service/DiseaseService.java:76-91 | for a catalog file: failure exactly when a row after the header raises; otherwise each id holds its last row and is keyed by itself |
| DiseaseService.DefaultFilename | server-module/src/main/java/com/genomic/server/service/DiseaseService.java:84-89 | a three-field row gives the trimmed fields and the filename id plus .fasta |
| DiseaseService.SeverityField | server-module/src/main/java/com/genomic/server/service/DiseaseService.java:87 | the decimal text of a severity has no comma and reads back as that severity |
| DiseaseService.GetDisease | server-module/src/main/java/com/genomic/server/service/DiseaseService.java:110-112 | a disease exactly when the id is in the catalog, stored under that id |
| DiseaseService.GetDiseaseSequence | server-module/src/main/java/com/genomic/server/service/DiseaseService.java:120-132 | the file text exactly when the id is known and its file exists and is readable; an exception exactly when it is unreadable; null otherwise |
| DiseaseService.StripHeader | server-module/src/main/java/com/genomic/server/service/DiseaseService.java:149 | changes the text only when it starts with '>' |
| DiseaseService.DeleteNewlines | server-module/src/main/java/com/genomic/server/service/DiseaseService.java:149 | removes every newline and leaves text without newlines as it is |
| DiseaseService.CleanSequence | server-module/src/main/java/com/genomic/server/service/DiseaseService.java:149-150 | the cleaned sequence has no newline |
| DiseaseService.CleanFasta | server-module/src/main/java/com/genomic/server/service/DiseaseService.java:149-150 | a leading header line is dropped and the newlines of the body removed |
| DiseaseService.CleanWithoutLeadingHeader | server-module/src/main/java/com/genomic/server/service/DiseaseService.java:149-150 | text not starting with '>' only loses its newlines |
| DiseaseService.CarriageReturnHeaderKept | server-module/src/main/java/com/genomic/server/service/DiseaseService.java:149 | a header ending in CR LF is not removed, since '.' stops at the carriage return |
| DiseaseService.CleanSequenceIdempotent | server-module/src/main/java/com/genomic/server/service/DiseaseService.java:149-150 | cleaning twice is cleaning once |
| DiseaseService.MatchOf | server-module/src/main/java/com/genomic/server/service/DiseaseService.java:147-163 | a match names the disease, reaches the threshold and lies in [0, 1] |
| DiseaseService.CompareWith | server-module/src/main/java/com/genomic/server/service/DiseaseService.java:147-167 | one turn of the scan gives exactly the specified match of that disease |
| DiseaseService.CheckForMatches | server-module/src/main/java/com/genomic/server/service/DiseaseService.java:140-173 | the matched ids are exactly the catalog diseases with a readable sequence, passing the length filter and reaching the threshold; each reported once with its similarity |
| DiseaseService.ScanStep | server-module/src/main/java/com/genomic/server/service/DiseaseService.java:145-171 | one more disease keeps the scan invariant |
| DiseaseService.EscapeCsv | server-module/src/main/java/com/genomic/server/service/DiseaseService.java:221-228 | null gives empty text; a value with comma or quote is quoted with inner quotes doubled; any other value is unchanged |
| DiseaseService.EscapeCsvRoundTrip | server-module/src/main/java/com/genomic/server/service/DiseaseService.java:224-226 | decoding an escaped field by RFC 4180 section 2 items 6 and 7 gives the value back |
| DiseaseService.BareQuoteRejected | server-module/src/main/java/com/genomic/server/service/DiseaseService.java:224-227 | an unescaped field containing a quote would not decode, so the quoting is needed |
| DiseaseService.ReportOf | server-module/src/main/java/com/genomic/server/service/DiseaseService.java:200-207 | the report row carries the patient, disease id, severity and similarity, and a name field that decodes to the disease name |
| DiseaseService.ReportsOf | server-module/src/main/java/com/genomic/server/service/PatientService.java:84-90 | one report per match, in order |
| PatientRecord.Columns | server-module/src/main/java/com/genomic/server/service/PatientService.java:341-356 | twelve columns from patient id to FASTA filename |
| PatientRecord.RowToPatient | server-module/src/main/java/com/genomic/server/service/PatientService.java:292-307 | reads a record exactly when age, date and size parse as Java numbers; a bad age raises its NumberFormatException; the id and active flag are taken from columns 0 and 10 |
| PatientRecord.SplitPatientCsv | server-module/src/main/java/com/genomic/server/service/PatientService.java:341-356 | splitting a comma-free record's line gives back its columns |
| PatientRecord.RowOfColumns | server-module/src/main/java/com/genomic/server/service/PatientService.java:292-307 | reading the columns of a comma-free record gives the record back |
| PatientRecord.CsvRoundTrip | server-module/src/main/java/com/genomic/server/service/PatientService.java:277-279 | a saved comma-free record splits into twelve values and reads back unchanged |
| PatientRecord.CommaInNameShifts | server-module/src/main/java/com/genomic/server/service/PatientService.java:277 | a comma in the full name shifts the columns: thirteen values, the document column holding the name's second half |
| PatientRecord.PatientJson | server-module/src/main/java/com/genomic/server/service/PatientService.java:361-376 | the JSON object has exactly the twelve record keys |
| PatientRecord.JsonRoundTrip | server-module/src/main/java/com/genomic/server/service/PatientService.java:361-376 | the JSON of a record with an int age reads back as that record |
| PatientRecord.IdFor | server-module/src/main/java/com/genomic/server/service/PatientService.java:133 | PAT followed by at least six digits |
| PatientRecord.IdNumber | server-module/src/main/java/com/genomic/server/service/PatientService.java:283 | the number after PAT, read as an int; an exception for a short or non-numeric id |
| PatientRecord.IdNumberOfIdFor | server-module/src/main/java/com/genomic/server/service/PatientService.java:133 | an allocated id reads back as its counter exactly when the counter fits an int |
| PatientRecord.IdForInjective | server-module/src/main/java/com/genomic/server/service/PatientService.java:133 | different counters below the int limit give different ids |
| PatientRecord.RewriteTable | server-module/src/main/java/com/genomic/server/service/PatientService.java:321-336 | keeps the header and the line count and rewrites every later line by the prefix rule |
| PatientRecord.RewriteLineIff | server-module/src/main/java/com/genomic/server/service/PatientService.java:329 | a line starts with the id and a comma exactly when its first column is that id |
| PatientRecord.PatientCsvStartsWithId | server-module/src/main/java/com/genomic/server/service/PatientService.java:341-344 | a record's line starts with its id and a comma |
| PatientRecord.RewriteTableIdempotent | server-module/src/main/java/com/genomic/server/service/PatientService.java:321-336 | rewriting twice with the same record is rewriting once |
| PatientRecord.RewriteTableEffect | server-module/src/main/java/com/genomic/server/service/PatientService.java:327-333 | only data lines whose first column is the id become the record's line; every other line is kept |
| PatientService.ReadDemographics | server-module/src/main/java/com/genomic/server/service/PatientService.java:121-127 | the fields are read exactly when name, sex and email are strings and age reads as an int; notes default to empty |
| Json.DecimalReadings | server-module/src/main/java/com/genomic/server/service/PatientService.java:124-127 | a decimal age is read by getInt as its intValue, the fraction dropped, while optString gives its text |
| PatientService.NewPatient | server-module/src/main/java/com/genomic/server/service/PatientService.java:106-158 | a created record has the new id, is active and has an int age; every refusal is a protocol exception |
| PatientService.NewPatientOutcome | server-module/src/main/java/com/genomic/server/service/PatientService.java:109-141 | creation succeeds exactly when the FASTA is valid, the document id is a string not held by an active record and the fields read; an invalid FASTA is rethrown unchanged; the record holds the submitted fields, the checksum, the byte length, the date and id plus .fasta |
| PatientService.FreshId | server-module/src/main/java/com/genomic/server/service/PatientService.java:133 | the next id is not on record while the counter is below the int limit |
| PatientService.DuplicateRejected | server-module/src/main/java/com/genomic/server/service/PatientService.java:115-118 | DUPLICATE_DOCUMENT exactly when the FASTA is valid and the document id is a string held by an active record, with that id in the message |
| PatientService.SecondRegistrationRejected | server-module/src/main/java/com/genomic/server/service/PatientService.java:239-242 | registering the same metadata again is refused as a duplicate |
| PatientService.MetadataRulesNotApplied | server-module/src/main/java/com/genomic/server/service/PatientService.java:106-130 | creation stores an age the metadata rules refuse |
| PatientService.TextUpdate | server-module/src/main/java/com/genomic/server/service/PatientService.java:192 | a present key must hold a string, which replaces the field; an absent key keeps it |
| PatientService.AgeUpdate | server-module/src/main/java/com/genomic/server/service/PatientService.java:193 | a present age must read as an int, which replaces the age; an absent key keeps it |
| PatientService.ApplyMetadata | server-module/src/main/java/com/genomic/server/service/PatientService.java:192-196 | changes only name, age, sex, email and notes, each only when present; fails exactly when a present value has the wrong type, keeping the setters applied before it |
| PatientService.UpdatedRecordOutcome | server-module/src/main/java/com/genomic/server/service/PatientService.java:190-209 | the update body runs through exactly when the metadata applies and a given FASTA is valid; checksum, size and filename change only for a non-blank FASTA |
| PatientService.UpdateHidesFastaCode | server-module/src/main/java/com/genomic/server/service/PatientService.java:199-217 | an invalid FASTA in an update reaches the client as SERVER_ERROR with the metadata already applied in memory |
| PatientService.ReportsDetect | server-module/src/main/java/com/genomic/server/service/PatientService.java:81-90 | the reports of a scan are exactly one detection per qualifying catalog disease |
| PatientService.DetectionsIgnoreCleaning | server-module/src/main/java/com/genomic/server/service/PatientService.java:76 | detections are the same for the FASTA and for its cleaned sequence |
| PatientService.Raise | server-module/src/main/java/com/genomic/server/service/PatientService.java:282-283 | the counter never falls and ends above the loaded number unless it is the int limit |
| PatientService.LoadLineValid | server-module/src/main/java/com/genomic/server/service/PatientService.java:277-284 | reading one line keeps the store invariant and never lowers the counter |
| PatientService.ReplaceKeepsValid | server-module/src/main/java/com/genomic/server/service/PatientService.java:183-218 | replacing an existing record keeps the store invariant |
| PatientService.AddKeepsValid | server-module/src/main/java/com/genomic/server/service/PatientService.java:133-141 | adding the record for the current counter and bumping it keeps the store invariant |
| PatientService.LoadRowsValid | server-module/src/main/java/com/genomic/server/service/PatientService.java:271-285 | a successful load gives a valid store |
| PatientService.LoadRowsNext | server-module/src/main/java/com/genomic/server/service/PatientService.java:271-285 | loading one more line is one more step of the line reader |
| PatientService.LoadRowsStops | server-module/src/main/java/com/genomic/server/service/PatientService.java:271-285 | after an exception the later lines are never read |
| PatientService.LoadLineOfSaved | server-module/src/main/java/com/genomic/server/service/PatientService.java:277-283 | reading a saved record's line stores that record and raises the counter past its number |
| PatientService.LoadAfterSave | server-module/src/main/java/com/genomic/server/service/PatientService.java:312-316 | for a record with no comma and no line break in its text columns, loading a table after its line is appended gives the earlier records plus that record, with the counter above its number |
| PatientService.LoadRowsPrefix | server-module/src/main/java/com/genomic/server/service/PatientService.java:271-285 | lines after the first n do not change loading the first n |
| PatientService.PatientService.Fresh | server-module/src/main/java/com/genomic/server/service/PatientService.java:35-53 | the service starts with the given table and files, no records, counter 1 and no reports |
| PatientService.PatientService.LoadLineInto | server-module/src/main/java/com/genomic/server/service/PatientService.java:277-284 | one loop body changes the map and counter exactly as the line reader says |
| PatientService.PatientService.LoadPatientsFromCsv | server-module/src/main/java/com/genomic/server/service/PatientService.java:261-287 | succeeds exactly when the table loads, leaving the loaded records and counter; a failure is the loader's exception |
| PatientService.PatientService.GetPatient | server-module/src/main/java/com/genomic/server/service/PatientService.java:166-174 | a JSON object exactly when the id is on record and active, and it reads back as that record; otherwise Patient not found with PATIENT_NOT_FOUND |
| PatientService.PatientService.CheckForDiseases | server-module/src/main/java/com/genomic/server/service/PatientService.java:70-97 | appends exactly one report per disease the scan of the cleaned sequence finds |
| PatientService.PatientService.AddPatient | server-module/src/main/java/com/genomic/server/service/PatientService.java:133-146 | stores the record under the new id, bumps the counter by one, appends its line, writes id plus .fasta and the reports |
| PatientService.PatientService.CreatePatient | server-module/src/main/java/com/genomic/server/service/PatientService.java:106-158 | succeeds exactly when the specified creation does: then the id is PAT and the old counter, the record is stored under it, the counter rises by one, the line, FASTA file and reports are added; a refusal changes nothing |
| PatientService.PatientService.UpdatePatientInCsv | server-module/src/main/java/com/genomic/server/service/PatientService.java:321-336 | an empty file fails with the null exception and changes nothing; otherwise the table becomes the rewritten table |
| PatientService.PatientService.Replace | server-module/src/main/java/com/genomic/server/service/PatientService.java:192-205 | replaces one record in memory |
| PatientService.PatientService.SaveUpdate | server-module/src/main/java/com/genomic/server/service/PatientService.java:199-212 | writes the FASTA and reports only for a non-blank FASTA, then rewrites the table |
| PatientService.PatientService.UpdatePatient | server-module/src/main/java/com/genomic/server/service/PatientService.java:183-218 | an absent or inactive id fails with PATIENT_NOT_FOUND and nothing changes; otherwise the record in memory takes the updated fields even when the update fails, failures become SERVER_ERROR, and table, files and reports change only on the success path |
| PatientService.PatientService.DeletePatient | server-module/src/main/java/com/genomic/server/service/PatientService.java:225-234 | an absent id fails with PATIENT_NOT_FOUND; otherwise only that record is marked inactive, even if it already was, and the table is rewritten; afterwards get fails |
| PatientService.Open | server-module/src/main/java/com/genomic/server/service/PatientService.java:35-63 | opening succeeds exactly when the patient table and the catalog load; a missing table starts with the header line; the loaded records, counter and catalog are in place |
| ProtocolHandler.LastEndMarker | server-module/src/main/java/com/genomic/server/ProtocolHandler.java:33-34 | a message ending in END and newline has its last END four characters from the end |
| ProtocolHandler.StripEndMarker | server-module/src/main/java/com/genomic/server/ProtocolHandler.java:33-35 | a message ending in END and newline is cut before that END and trimmed; any other message is unchanged |
| ProtocolHandler.FailureResponse | common-module/src/main/java/com/genomic/common/ProtocolException.java:29-31 | every failure becomes an error response with code and message and no data |
| ProtocolHandler.FailureWire | server-module/src/main/java/com/genomic/server/ProtocolHandler.java:102-107 | a protocol exception keeps its code and message; any other becomes SERVER_ERROR with 'Internal server error: ' and its message; the wire text is ERROR and that object |
| ProtocolHandler.ParsedDispatchable | common-module/src/main/java/com/genomic/common/ProtocolRequest.java:53-104 | every parsed request carries the fields its command needs, and an UPDATE never a FASTA |
| ProtocolHandler.CreateAnswered | server-module/src/main/java/com/genomic/server/ProtocolHandler.java:77-83 | CREATE succeeds exactly when the store creates the record, with the new id and the created message; otherwise the store's code and message |
| ProtocolHandler.GetAnswered | server-module/src/main/java/com/genomic/server/ProtocolHandler.java:85-87 | GET succeeds exactly when the record is present and active, carrying the store's JSON of it; otherwise PATIENT_NOT_FOUND |
| ProtocolHandler.UpdateAnswered | server-module/src/main/java/com/genomic/server/ProtocolHandler.java:89-92 | UPDATE succeeds exactly when the record is found, the body runs through and the table is not empty; not found is PATIENT_NOT_FOUND, anything else SERVER_ERROR |
| ProtocolHandler.DeleteAnswered | server-module/src/main/java/com/genomic/server/ProtocolHandler.java:94-96 | DELETE succeeds exactly when the id is on record and the table is not empty; an empty table gives SERVER_ERROR 'Internal server error: null' |
| ProtocolHandler.OtherCommandAnswered | server-module/src/main/java/com/genomic/server/ProtocolHandler.java:98-100 | any other command is INVALID_FORMAT 'Unknown command: ' and the command |
| ProtocolHandler.ParseFailureAnswered | server-module/src/main/java/com/genomic/server/ProtocolHandler.java:47-52 | a parse failure is answered by one INVALID_FORMAT error carrying the parser's message |
| ProtocolHandler.CountRequestAnswered | server-module/src/main/java/com/genomic/server/ProtocolHandler.java:98-100 | the count request, although parsed, is answered as an unknown command |
| ProtocolHandler.NotEndTerminated | server-module/src/main/java/com/genomic/server/ProtocolHandler.java:33 | a message not ending in newline is not stripped |
| ProtocolHandler.UnmarkedNotStripped | server-module/src/main/java/com/genomic/server/ProtocolHandler.java:33-36 | a message without END passes the strip unchanged |
| ProtocolHandler.IdLineAnswered | server-module/src/main/java/com/genomic/server/ProtocolHandler.java:39-40 | a GET or DELETE line for an id without delimiter or END is answered as the request for the trimmed id |
| ProtocolHandler.GetRequestAnswered | server-module/src/main/java/com/genomic/server/ProtocolHandler.java:39-40 | the client's GET request for any id without delimiter or END is answered as the store's get of the trimmed id |
| ProtocolHandler.DeleteRequestAnswered | server-module/src/main/java/com/genomic/server/ProtocolHandler.java:39-40 | the client's DELETE request for any id without delimiter or END is answered as the store's delete of the trimmed id |
| ProtocolHandler.ParsedAnswer | server-module/src/main/java/com/genomic/server/ProtocolHandler.java:39-40 | an unstripped message that parses is answered by dispatching its request |
| ProtocolHandler.Create | server-module/src/main/java/com/genomic/server/ProtocolHandler.java:77-83 | the reply is the specified create reply for the old store; an accepted record is stored under the next id, the counter rises by one, its line is appended, its FASTA written and scanned; a refusal changes nothing; the catalog is untouched |
| ProtocolHandler.Get | server-module/src/main/java/com/genomic/server/ProtocolHandler.java:85-87 | the reply is the specified get reply |
| ProtocolHandler.Update | server-module/src/main/java/com/genomic/server/ProtocolHandler.java:89-92 | the reply is the specified update reply; an absent or inactive id changes nothing; otherwise the setters' changes stay in memory, and the table is rewritten and the FASTA written and scanned only when every check passed |
| ProtocolHandler.Delete | server-module/src/main/java/com/genomic/server/ProtocolHandler.java:94-96 | the reply is the specified delete reply; a known record is marked inactive and the table rewritten when not empty; an unknown id changes nothing |
| ProtocolHandler.ProcessRequest | server-module/src/main/java/com/genomic/server/ProtocolHandler.java:74-108 | the reply is the specified dispatch reply for the old store; the new store is the effect of the command, case by case as for Create, Update and Delete; GET and unknown commands leave the store unchanged |
| ProtocolHandler.HandleRequest | server-module/src/main/java/com/genomic/server/ProtocolHandler.java:22-69 | the wire text is the rendering of the answer to the stripped message; a parse failure changes nothing; a parsed request changes the store by the effect of its command, and an UPDATE writes no file and no report |
| ProtocolHandler.FailedRequestKeepsRecords | server-module/src/main/java/com/genomic/server/ProtocolHandler.java:74-108 | a request answered with an error leaves the counter and the table as they were, and a refused CREATE leaves the whole store as it was |
| ProtocolHandler.CreatedAddsOne | server-module/src/main/java/com/genomic/server/ProtocolHandler.java:77-83 | a successful CREATE adds exactly the one id it answers with and appends exactly one line to the table |

## Left out

- Sockets, TLS, `readUTF`/`writeUTF` framing, threads and the thread pool (`TCPServer`, `TCPClient`, both `Main` classes, `EnhancedClient`): I/O, concurrency and console UI. The per-connection services built in `TCPServer` are not modelled; the store is single-threaded, and the thread-safety of `ConcurrentHashMap` and `AtomicInteger` is not modelled.
- `Logger`, `PerformanceMonitor`, `ConnectionPool`, `Pacient` and every `println`: logging, timing and an unused holder.
- The SHA-256 digest itself: a foreign call, passed as a function `sha256` from text to bytes. Only the hex rendering is modelled, and the digest length is not fixed to 32.
- org.json parsing and printing: the parser (`parseJson`) and printer (`printJson`) are parameters, so key order and exact JSON text are out.
- Floating point: the similarity is an exact `real`, so agreement at rounding boundaries is not claimed; `patientSeq.length() < diseaseSeq.length() * 0.5` is modelled as `2 * length(patient) < length(disease)`. The `%.4f` similarity, the detection date and the description column of the report row are not modelled, nor is the report file's header line.
- Time: `new Date()` at creation is a parameter `now`.
- Files: `patients.csv` is a sequence of lines, the FASTA directory and the disease files are maps. A field holding a line break is not split into physical lines. Write failures, directory creation and `IOException` are not modelled, except a disease file that cannot be read, which the scan skips.
- PatientService.LoadAfterSave: covers only records whose text columns hold no comma and no line break. The table is modelled as one entry per written line, but `Files.readAllLines` breaks lines at `\n`, `\r` and `\r\n`. `createPatient` stores the clinical notes unchecked, so notes with a line break are written as two physical lines. On the next start both pieces have fewer than twelve fields and are skipped, and the record is lost. If it was the newest record, the counter is not raised past it, so the next create reuses its id. The model does not represent this loss.
- JavaText.ParseInteger: only the ASCII digits `0`-`9` are accepted. Java's `Integer.parseInt` and `Long.parseLong` also accept every other Unicode decimal digit, so a catalog severity or a string age written in such digits, which Java reads, is a `NumberFormatException` in the model. For the catalog, that failure aborts the whole load.
- Json.GetInt: a decimal's `intValue()` is a field of the value, kept to 32 bits by wrap-around. Whether the library holds it as a `BigDecimal` (wrap-around) or a `double` (saturation) is not modelled.
- Json.WrongType: the "is not a string" and "is not a int" messages omit the ` (class …: value)` suffix that recent org.json versions append.
- SequenceAligner.IsPotentialMatch: lengths count Unicode scalar values, while Java's `length()` counts UTF-16 units. The two differ only for characters outside the Basic Multilingual Plane. Such characters can reach the length test in a disease or patient sequence whose header line the cleaning leaves in place (a CR LF header).
- PatientService.Open: the constructor's `IOException` wrapping as "Failed to initialize PatientService" is not modelled; a load failure propagates unchanged.
- PatientService.PatientService.CreatePatient: the checksum is computed before the FASTA check and the field reads rather than while the record is built; nothing observable depends on the order, because the digest is a total function here. The counter is an `int` that the store's invariant keeps at 1 or above, with no upper bound, so `AtomicInteger` wrapping past the largest `int` is not modelled (the `parseInt(...) + 1` of the load is wrapped to 32 bits).
- PatientService.PatientService.CreatePatient: does not restate the read-back through `getPatient`; that follows from the stored record, `PatientService.NewPatientOutcome` and `PatientService.PatientService.GetPatient`.
- ProtocolHandler.ProcessRequest: requires that the request carries the fields its command needs, which every parsed request does (`ProtocolHandler.ParsedDispatchable`); a request with missing fields would raise `NullPointerException` in Java, and that path is not modelled.
- ProtocolHandler.HandleRequest: the outer `catch (Exception)` that sends "Internal server error" without a message is not modelled, because in the model every failure is caught by the inner handlers.
- DiseaseService.PutRows: receives every row already parsed rather than parsing each one inside the loop; this is not observable, because parsing has no effect.
- DiseaseService.CheckForMatches: visits the catalog in an unspecified order, as `ConcurrentHashMap.values()` does; the contract states the set of matches, with no duplicates, and not their order.
