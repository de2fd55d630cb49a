/** `PatientService`: the registry of patients held in memory, its file
    `patients.csv` (as the list of its lines), the directory of uploaded FASTA
    files (a map from file name to content) and the rows written to the
    detection report. SHA-256 is a function supplied by the caller and the
    clock reading is a parameter. */
module PatientService {
  import opened Wrappers
  import opened Common
  import opened JavaText
  import opened Json
  import opened FastaValidator
  import opened ValidationUtil
  import opened DiseaseService
  import opened PatientRecord

  /** The similarity `checkForDiseases` asks of a match. */
  const DetectionThreshold: real := 0.8

  // ---------------------------------------------------------------- registry invariants

  /** Every record sits under its own id, as `patients.put(patientId, patient)` leaves it. */
  predicate KeyedById(patients: map<string, Patient>)
  {
    forall k :: k in patients ==> patients[k].patientId == k
  }

  /** Every id that reads back as a number past its `PAT` names one the counter
      has already passed, except the largest `int`, past which `+ 1` wraps. */
  predicate IdsBelow(patients: map<string, Patient>, counter: int)
  {
    forall k :: k in patients && IdNumber(k).Ok? ==> IdNumber(k).value < counter || IdNumber(k).value == IntMax
  }

  /** Java `int` fields keep their width. */
  predicate AgesInRange(patients: map<string, Patient>)
  {
    forall k :: k in patients ==> IntMin <= patients[k].age <= IntMax
  }

  /** `isDuplicateDocumentId(documentId)`: some active record carries the document id. */
  predicate HasActiveDocument(patients: map<string, Patient>, documentId: string)
  {
    exists k :: k in patients && patients[k].active && patients[k].documentId == documentId
  }

  function NotFoundError(patientId: string): Failure
  {
    ProtocolError(PatientNotFound, "Patient not found: " + patientId)
  }

  /** The rethrow of `createPatient`: a `ProtocolException` passes unchanged,
      anything else becomes SERVER_ERROR. */
  function CreateFailure(e: Failure): Failure
  {
    if e.ProtocolError? then e else ProtocolError(ServerError, "Failed to create patient: " + e.message)
  }

  /** The rethrow of `updatePatient`: every exception becomes SERVER_ERROR. */
  function UpdateFailure(e: Failure): Failure
  {
    ProtocolError(ServerError, "Failed to update patient: " + e.message)
  }

  /** `lines.getFirst()` on an empty file: `NoSuchElementException`, whose
      message is `null`. */
  const EmptyFileError: Failure := RuntimeError("null")

  // ---------------------------------------------------------------- createPatient

  /** The constructor arguments `createPatient` reads out of the metadata. */
  datatype Demographics = Demographics(fullName: string, age: int, sex: string, email: string, clinicalNotes: string)

  /** `getString("fullName")`, `getInt("age")`, `getString("sex")`,
      `getString("email")`, `optString("clinicalNotes", "")`, in that order. */
  function ReadDemographics(m: JsonObject): (r: Result<Demographics, Failure>)
    ensures r.Ok? <==> GetString(m, "fullName").Ok? && GetInt(m, "age").Ok? && GetString(m, "sex").Ok? && GetString(m, "email").Ok?
    ensures r.Err? ==> r.error.RuntimeError?
    ensures r.Ok? ==> r.value.fullName == m["fullName"].s && r.value.sex == m["sex"].s && r.value.email == m["email"].s
    ensures r.Ok? ==> r.value.age == GetInt(m, "age").value && r.value.clinicalNotes == OptString(m, "clinicalNotes", "")
  {
    match GetString(m, "fullName")
    case Err(e) => Err(e)
    case Ok(fullName) =>
      match GetInt(m, "age")
      case Err(e) => Err(e)
      case Ok(age) =>
        match GetString(m, "sex")
        case Err(e) => Err(e)
        case Ok(sex) =>
          match GetString(m, "email")
          case Err(e) => Err(e)
          case Ok(email) => Ok(Demographics(fullName, age, sex, email, OptString(m, "clinicalNotes", "")))
  }

  /** The record `createPatient` stores under `id`, or what it throws: the
      FASTA is validated first, then the document id is read and checked
      against the active records, then the other fields are read. */
  function NewPatient(patients: map<string, Patient>, m: JsonObject, fastaContent: string,
                      id: string, checksum: string, now: int): (r: Result<Patient, Failure>)
    ensures r.Ok? ==> r.value.patientId == id && r.value.active && IntMin <= r.value.age <= IntMax
    ensures r.Err? ==> r.error.ProtocolError?
  {
    match ValidateFasta(Some(fastaContent))
    case Fail(e) => Err(e)
    case Pass =>
      match GetString(m, "documentId")
      case Err(e) => Err(CreateFailure(e))
      case Ok(documentId) =>
        if HasActiveDocument(patients, documentId) then
          Err(ProtocolError(DuplicateDocument, "Duplicate document ID: " + documentId))
        else match ReadDemographics(m)
          case Err(e) => Err(CreateFailure(e))
          case Ok(d) =>
            Ok(Patient(id, d.fullName, documentId, d.age, d.sex, d.email, now, d.clinicalNotes,
                       checksum, Utf8Length(fastaContent), true, id + ".fasta"))
  }

  /** When `createPatient` succeeds, and what it stores. */
  lemma NewPatientOutcome(patients: map<string, Patient>, m: JsonObject, fastaContent: string,
                          id: string, checksum: string, now: int)
    ensures var r := NewPatient(patients, m, fastaContent, id, checksum, now);
      && (r.Ok? <==> IsValidFasta(Some(fastaContent)) && GetString(m, "documentId").Ok?
                     && !HasActiveDocument(patients, m["documentId"].s) && ReadDemographics(m).Ok?)
      && (!IsValidFasta(Some(fastaContent)) ==> r == Err(ValidateFasta(Some(fastaContent)).error))
      && (r.Ok? ==> r.value.documentId == m["documentId"].s && r.value.registrationDate == now
                    && r.value.checksumFasta == checksum && r.value.fileSizeBytes == Utf8Length(fastaContent)
                    && r.value.fastaFilename == id + ".fasta")
      && (r.Ok? ==> var d := ReadDemographics(m).value;
                    r.value.fullName == d.fullName && r.value.age == d.age && r.value.sex == d.sex
                    && r.value.email == d.email && r.value.clinicalNotes == d.clinicalNotes)
  {
  }

  /** The next id the counter gives is not yet on record, while the counter
      is below the largest `int`. */
  lemma FreshId(patients: map<string, Patient>, counter: nat)
    requires IdsBelow(patients, counter) && counter < IntMax
    ensures IdFor(counter) !in patients
  {
    IdNumberOfIdFor(counter);
  }

  /** DUPLICATE_DOCUMENT is the answer exactly when the FASTA is valid and the
      document id is a string some active record already holds; the message
      names that id. */
  lemma DuplicateRejected(patients: map<string, Patient>, m: JsonObject, fastaContent: string,
                          id: string, checksum: string, now: int)
    ensures var r := NewPatient(patients, m, fastaContent, id, checksum, now);
      var duplicate := IsValidFasta(Some(fastaContent)) && GetString(m, "documentId").Ok?
                       && HasActiveDocument(patients, m["documentId"].s);
      && (r.Err? && r.error.code == DuplicateDocument <==> duplicate)
      && (duplicate ==> r == Err(ProtocolError(DuplicateDocument, "Duplicate document ID: " + m["documentId"].s)))
  {
    var r := NewPatient(patients, m, fastaContent, id, checksum, now);
    if IsValidFasta(Some(fastaContent)) && GetString(m, "documentId").Ok? && !HasActiveDocument(patients, m["documentId"].s) {
      if ReadDemographics(m).Err? {
        assert r.error == CreateFailure(ReadDemographics(m).error);
      }
    }
  }

  /** Registering the same metadata a second time is refused as a duplicate,
      whatever its FASTA, provided it is valid. */
  lemma SecondRegistrationRejected(patients: map<string, Patient>, m: JsonObject, fasta1: string, fasta2: string,
                                   id1: string, id2: string, checksum1: string, checksum2: string, now1: int, now2: int)
    requires NewPatient(patients, m, fasta1, id1, checksum1, now1).Ok?
    requires IsValidFasta(Some(fasta2))
    ensures var p := NewPatient(patients, m, fasta1, id1, checksum1, now1).value;
            NewPatient(patients[id1 := p], m, fasta2, id2, checksum2, now2).Err?
            && NewPatient(patients[id1 := p], m, fasta2, id2, checksum2, now2).error.code == DuplicateDocument
  {
    var p := NewPatient(patients, m, fasta1, id1, checksum1, now1).value;
    assert HasActiveDocument(patients[id1 := p], m["documentId"].s) by {
      assert id1 in patients[id1 := p] && patients[id1 := p][id1] == p;
    }
    DuplicateRejected(patients[id1 := p], m, fasta2, id2, checksum2, now2);
  }

  /** `createPatient` does not apply the metadata rules: an age the rules
      refuse is stored. */
  lemma MetadataRulesNotApplied(patients: map<string, Patient>, m: JsonObject, fastaContent: string,
                                id: string, checksum: string, now: int)
    requires IsValidFasta(Some(fastaContent)) && GetString(m, "documentId").Ok?
    requires !HasActiveDocument(patients, m["documentId"].s)
    requires GetString(m, "fullName").Ok? && GetString(m, "sex").Ok? && GetString(m, "email").Ok?
    requires "age" in m && m["age"] == JInt(0)
    ensures NewPatient(patients, m, fastaContent, id, checksum, now).Ok?
    ensures NewPatient(patients, m, fastaContent, id, checksum, now).value.age == 0
    ensures ValidatePatientMetadata(Some(m)).Fail?
  {
    assert GetInt(m, "age") == Ok(0);
  }

  // ---------------------------------------------------------------- updatePatient

  /** A record part-way through the setters of `updatePatient`, and the
      exception that stopped them, if any. */
  datatype Partial = Partial(patient: Patient, failure: Option<Failure>)

  /** `if (metadata.has(key)) patient.setX(metadata.getString(key))`: the new
      value of a text field, or what `getString` throws. */
  function TextUpdate(m: JsonObject, key: string, current: string): (r: Result<string, Failure>)
    ensures r.Ok? <==> key !in m || m[key].JString?
    ensures r.Ok? ==> r.value == if key in m then m[key].s else current
    ensures r.Err? ==> r.error.RuntimeError?
  {
    if key !in m then Ok(current) else GetString(m, key)
  }

  /** `if (metadata.has("age")) patient.setAge(metadata.getInt("age"))` */
  function AgeUpdate(m: JsonObject, current: int): (r: Result<int, Failure>)
    ensures r.Ok? <==> "age" !in m || GetInt(m, "age").Ok?
    ensures r.Ok? ==> r.value == if "age" in m then GetInt(m, "age").value else current
    ensures r.Err? ==> r.error.RuntimeError?
  {
    if "age" !in m then Ok(current) else GetInt(m, "age")
  }

  /** The metadata `updatePatient` takes without throwing: each of the five
      keys that is present has the type its getter wants. */
  predicate UpdatableMetadata(m: JsonObject)
  {
    && ("fullName" in m ==> m["fullName"].JString?)
    && ("age" in m ==> GetInt(m, "age").Ok?)
    && ("sex" in m ==> m["sex"].JString?)
    && ("email" in m ==> m["email"].JString?)
    && ("clinicalNotes" in m ==> m["clinicalNotes"].JString?)
  }

  /** The five setters in order. Only these fields can change: the id, the
      document id, the registration date, the FASTA fields and the active flag
      stay as they were. */
  function ApplyMetadata(p: Patient, m: JsonObject): (r: Partial)
    ensures r.patient.patientId == p.patientId && r.patient.documentId == p.documentId
    ensures r.patient.registrationDate == p.registrationDate && r.patient.active == p.active
    ensures r.patient.checksumFasta == p.checksumFasta && r.patient.fileSizeBytes == p.fileSizeBytes
    ensures r.patient.fastaFilename == p.fastaFilename
    ensures IntMin <= p.age <= IntMax ==> IntMin <= r.patient.age <= IntMax
    ensures r.failure.None? <==> UpdatableMetadata(m)
    ensures r.failure.Some? ==> r.failure.value.RuntimeError?
    ensures r.failure.None? ==>
      && r.patient.fullName == (if "fullName" in m then m["fullName"].s else p.fullName)
      && r.patient.age == (if "age" in m then GetInt(m, "age").value else p.age)
      && r.patient.sex == (if "sex" in m then m["sex"].s else p.sex)
      && r.patient.email == (if "email" in m then m["email"].s else p.email)
      && r.patient.clinicalNotes == (if "clinicalNotes" in m then m["clinicalNotes"].s else p.clinicalNotes)
  {
    match TextUpdate(m, "fullName", p.fullName)
    case Err(e) => Partial(p, Some(e))
    case Ok(fullName) =>
      var p1 := p.(fullName := fullName);
      match AgeUpdate(m, p.age)
      case Err(e) => Partial(p1, Some(e))
      case Ok(age) =>
        var p2 := p1.(age := age);
        match TextUpdate(m, "sex", p.sex)
        case Err(e) => Partial(p2, Some(e))
        case Ok(sex) =>
          var p3 := p2.(sex := sex);
          match TextUpdate(m, "email", p.email)
          case Err(e) => Partial(p3, Some(e))
          case Ok(email) =>
            var p4 := p3.(email := email);
            match TextUpdate(m, "clinicalNotes", p.clinicalNotes)
            case Err(e) => Partial(p4, Some(e))
            case Ok(notes) => Partial(p4.(clinicalNotes := notes), None)
  }

  /** `fastaContent != null && !fastaContent.trim().isEmpty()` */
  predicate FastaGiven(fastaContent: Option<string>)
  {
    fastaContent.Some? && Trim(fastaContent.value) != []
  }

  /** The record after the body of `updatePatient`'s `try`, up to the CSV
      rewrite, and what stopped it: the setters, then, for a FASTA that is
      given, its validation and the three FASTA fields. */
  function UpdatedRecord(p: Patient, patientId: string, m: JsonObject, fastaContent: Option<string>,
                         sha256: string -> seq<byte>): (r: Partial)
    ensures r.patient.patientId == p.patientId && r.patient.documentId == p.documentId && r.patient.active == p.active
    ensures IntMin <= p.age <= IntMax ==> IntMin <= r.patient.age <= IntMax
  {
    var applied := ApplyMetadata(p, m);
    if applied.failure.Some? || !FastaGiven(fastaContent) then applied
    else match ValidateFasta(fastaContent)
      case Fail(e) => Partial(applied.patient, Some(e))
      case Pass =>
        var f := fastaContent.value;
        Partial(applied.patient.(checksumFasta := HexOf(sha256(f)), fileSizeBytes := Utf8Length(f),
                                 fastaFilename := patientId + ".fasta"), None)
  }

  /** When the body of `updatePatient` runs through, and what it leaves on the record. */
  lemma UpdatedRecordOutcome(p: Patient, patientId: string, m: JsonObject, fastaContent: Option<string>,
                             sha256: string -> seq<byte>)
    ensures var r := UpdatedRecord(p, patientId, m, fastaContent, sha256);
      && (r.failure.None? <==> UpdatableMetadata(m) && (FastaGiven(fastaContent) ==> IsValidFasta(fastaContent)))
      && (r.failure.None? && FastaGiven(fastaContent) ==>
            r.patient == ApplyMetadata(p, m).patient.(checksumFasta := HexOf(sha256(fastaContent.value)),
              fileSizeBytes := Utf8Length(fastaContent.value), fastaFilename := patientId + ".fasta"))
      && (!FastaGiven(fastaContent) || r.failure.Some? ==> r.patient == ApplyMetadata(p, m).patient)
  {
  }

  /** An invalid FASTA in an update reaches the client as SERVER_ERROR, its
      INVALID_FASTA code lost, and the new metadata stays on the record in
      memory although the file is not rewritten. */
  lemma UpdateHidesFastaCode(p: Patient, patientId: string, m: JsonObject, fastaContent: string, sha256: string -> seq<byte>)
    requires UpdatableMetadata(m) && Trim(fastaContent) != [] && !IsValidFasta(Some(fastaContent))
    ensures var u := UpdatedRecord(p, patientId, m, Some(fastaContent), sha256);
      && u.failure == Some(ValidateFasta(Some(fastaContent)).error)
      && u.failure.value.code == InvalidFasta
      && UpdateFailure(u.failure.value).code == ServerError
      && UpdateFailure(u.failure.value).message == "Failed to update patient: " + ValidateFasta(Some(fastaContent)).error.message
      && u.patient == ApplyMetadata(p, m).patient
  {
  }

  /** How `updatePatient` ends, read off the store before the call:
      PATIENT_NOT_FOUND for an absent or inactive record, otherwise the
      wrapped failure of the setters, of the FASTA checks, or of rewriting an
      empty `patients.csv`. */
  function UpdateOutcome(patients: map<string, Patient>, table: seq<string>, patientId: string, m: JsonObject,
                         fastaContent: Option<string>, sha256: string -> seq<byte>): Outcome<Failure>
  {
    if patientId !in patients || !patients[patientId].active then Fail(NotFoundError(patientId))
    else
      var u := UpdatedRecord(patients[patientId], patientId, m, fastaContent, sha256);
      if u.failure.Some? then Fail(UpdateFailure(u.failure.value))
      else if table == [] then Fail(UpdateFailure(EmptyFileError))
      else Pass
  }

  /** How `deletePatient` ends: only an absent record is refused, and the
      failure of rewriting an empty `patients.csv` is not wrapped. */
  function DeleteOutcome(patients: map<string, Patient>, table: seq<string>, patientId: string): Outcome<Failure>
  {
    if patientId !in patients then Fail(NotFoundError(patientId))
    else if table == [] then Fail(EmptyFileError)
    else Pass
  }

  // ---------------------------------------------------------------- disease detection

  /** The rows `checkForDiseases` adds for a patient, given the genome it passed
      to the scan: one row per qualifying catalog disease, each built from that
      disease's match, no disease twice. */
  predicate Detections(db: DiseaseDb, patientId: string, genome: string, rows: seq<DetectionReport>)
  {
    && (set i | 0 <= i < |rows| :: rows[i].diseaseId)
       == Qualifying(db, db.diseases.Keys, genome, DetectionThreshold)
    && (forall i :: 0 <= i < |rows| ==>
          rows[i].diseaseId in db.diseases
          && MatchOf(db, db.diseases[rows[i].diseaseId], genome, DetectionThreshold).Some?
          && rows[i] == ReportOf(patientId, MatchOf(db, db.diseases[rows[i].diseaseId], genome, DetectionThreshold).value))
    && (forall i, j :: 0 <= i < j < |rows| ==> rows[i].diseaseId != rows[j].diseaseId)
  }

  /** `after` is `before` with the detections of a FASTA upload appended; the
      scan is given the cleaned genome. */
  predicate ReportsAppended(before: seq<DetectionReport>, after: seq<DetectionReport>, db: DiseaseDb,
                            patientId: string, fastaContent: string)
  {
    |after| >= |before| && after[..|before|] == before
    && Detections(db, patientId, CleanSequence(fastaContent), after[|before|..])
  }

  /** The report rows of a scan's result are the detections of that scan. */
  lemma ReportsDetect(db: DiseaseDb, patientId: string, genome: string, matches: seq<MatchResult>)
    requires MatchedIds(matches) == Qualifying(db, db.diseases.Keys, genome, DetectionThreshold)
    requires forall i :: 0 <= i < |matches| ==> Reported(db, matches[i], genome, DetectionThreshold)
    requires forall i, j :: 0 <= i < j < |matches| ==> matches[i].disease.diseaseId != matches[j].disease.diseaseId
    ensures Detections(db, patientId, genome, ReportsOf(patientId, matches))
  {
    var rows := ReportsOf(patientId, matches);
    assert (set i | 0 <= i < |rows| :: rows[i].diseaseId) == MatchedIds(matches) by {
      forall i | 0 <= i < |rows| ensures rows[i].diseaseId == matches[i].disease.diseaseId {
      }
    }
  }

  /** The genome is cleaned twice on its way to the scan, by `checkForDiseases`
      and by `checkForMatches`; the second cleaning changes nothing. */
  lemma DetectionsIgnoreCleaning(db: DiseaseDb, patientId: string, fastaContent: string, rows: seq<DetectionReport>)
    ensures Detections(db, patientId, CleanSequence(fastaContent), rows) <==> Detections(db, patientId, fastaContent, rows)
  {
    CleanSequenceIdempotent(fastaContent);
    forall d: Disease ensures MatchOf(db, d, CleanSequence(fastaContent), DetectionThreshold) == MatchOf(db, d, fastaContent, DetectionThreshold) {
    }
  }

  // ---------------------------------------------------------------- loading

  /** The in-memory registry: records and the id counter. */
  datatype Registry = Registry(patients: map<string, Patient>, counter: int)

  /** `Math.max(counter, number + 1)` with the `int` addition wrapping. */
  function Raise(counter: int, number: int): (r: int)
    requires IntMin <= number <= IntMax
    ensures r >= counter
    ensures number < IntMax ==> r > number
  {
    var next := Wrap32(number + 1);
    if counter >= next then counter else next
  }

  /** One turn of the loop of `loadPatientsFromCsv`: a line of fewer than
      twelve columns is skipped, a record is stored under its id and the
      counter raised past the id's number. */
  function LoadLine(reg: Registry, line: string): Result<Registry, Failure>
  {
    var values := JavaSplit(line, ',');
    if |values| < 12 then Ok(reg)
    else match RowToPatient(values)
      case Err(e) => Err(e)
      case Ok(p) =>
        match IdNumber(p.patientId)
        case Err(e) => Err(e)
        case Ok(v) => Ok(Registry(reg.patients[p.patientId := p], Raise(reg.counter, v)))
  }

  /** The registry after the first `n` lines of `patients.csv`, the header
      line skipped. */
  function LoadRows(lines: seq<string>, n: nat): Result<Registry, Failure>
    requires 1 <= n <= |lines|
  {
    if n == 1 then Ok(Registry(map[], 1))
    else match LoadRows(lines, n - 1)
      case Err(e) => Err(e)
      case Ok(reg) => LoadLine(reg, lines[n - 1])
  }

  /** `loadPatientsFromCsv()` over the file's lines. */
  function Loaded(lines: seq<string>): Result<Registry, Failure>
  {
    if lines == [] then Ok(Registry(map[], 1)) else LoadRows(lines, |lines|)
  }

  /** The invariants of the service hold of the registry before any line is read. */
  predicate RegistryValid(reg: Registry)
  {
    KeyedById(reg.patients) && IdsBelow(reg.patients, reg.counter) && reg.counter >= 1 && AgesInRange(reg.patients)
  }

  /** One line keeps the invariants, and a stored record's id reads back as a number. */
  lemma LoadLineValid(reg: Registry, line: string)
    requires RegistryValid(reg) && LoadLine(reg, line).Ok?
    ensures RegistryValid(LoadLine(reg, line).value)
    ensures LoadLine(reg, line).value.counter >= reg.counter
  {
  }

  /** Replacing a record by one with the same id keeps the invariants. */
  lemma ReplaceKeepsValid(reg: Registry, p: Patient)
    requires RegistryValid(reg) && p.patientId in reg.patients && IntMin <= p.age <= IntMax
    ensures RegistryValid(Registry(reg.patients[p.patientId := p], reg.counter))
  {
  }

  /** Storing a record under the counter's id and advancing the counter keeps
      the invariants. */
  lemma AddKeepsValid(reg: Registry, p: Patient)
    requires RegistryValid(reg) && p.patientId == IdFor(reg.counter) && IntMin <= p.age <= IntMax
    ensures RegistryValid(Registry(reg.patients[p.patientId := p], reg.counter + 1))
  {
    IdNumberOfIdFor(reg.counter);
  }

  /** A loaded registry satisfies the invariants the service keeps. */
  lemma {:induction false} LoadRowsValid(lines: seq<string>, n: nat)
    requires 1 <= n <= |lines| && LoadRows(lines, n).Ok?
    ensures RegistryValid(LoadRows(lines, n).value)
  {
    if n > 1 {
      LoadRowsValid(lines, n - 1);
      LoadLineValid(LoadRows(lines, n - 1).value, lines[n - 1]);
    }
  }

  /** The next line is read into the registry the lines before it left. */
  lemma LoadRowsNext(lines: seq<string>, n: nat, reg: Registry)
    requires 1 <= n < |lines| && LoadRows(lines, n) == Ok(reg)
    ensures LoadRows(lines, n + 1) == LoadLine(reg, lines[n])
  {
  }

  /** A failing line ends the load: no later line changes the outcome. */
  lemma {:induction false} LoadRowsStops(lines: seq<string>, n: nat, m: nat)
    requires 1 <= n <= m <= |lines| && LoadRows(lines, n).Err?
    ensures LoadRows(lines, m) == LoadRows(lines, n)
    decreases m - n
  {
    if m > n {
      LoadRowsStops(lines, n, m - 1);
    }
  }

  /** A line written by `convertPatientToCsv` loads as its record. */
  lemma LoadLineOfSaved(reg: Registry, p: Patient)
    requires CsvSafe(p) && IdNumber(p.patientId).Ok?
    ensures LoadLine(reg, PatientCsv(p)) == Ok(Registry(reg.patients[p.patientId := p], Raise(reg.counter, IdNumber(p.patientId).value)))
  {
    CsvRoundTrip(p);
  }

  /** A line appended by `savePatientToCsv` for a record that fits the format
      (no separator and no line break in a text column) is read back on the
      next start: the record is restored under its id and the counter passes
      its number. */
  lemma LoadAfterSave(lines: seq<string>, p: Patient)
    requires lines != [] && Loaded(lines).Ok? && CsvSafe(p) && IdNumber(p.patientId).Ok?
    requires IdNumber(p.patientId).value < IntMax
    ensures Loaded(lines + [PatientCsv(p)]).Ok?
    ensures Loaded(lines + [PatientCsv(p)]).value.patients == Loaded(lines).value.patients[p.patientId := p]
    ensures Loaded(lines + [PatientCsv(p)]).value.counter > IdNumber(p.patientId).value
    ensures Loaded(lines + [PatientCsv(p)]).value.counter >= Loaded(lines).value.counter
  {
    LoadedSnoc(lines, PatientCsv(p));
    LoadLineOfSaved(Loaded(lines).value, p);
  }

  /** A line appended to the file is read after all the lines before it. */
  lemma LoadedSnoc(lines: seq<string>, line: string)
    requires lines != [] && Loaded(lines).Ok?
    ensures Loaded(lines + [line]) == LoadLine(Loaded(lines).value, line)
  {
    var longer := lines + [line];
    LoadRowsPrefix(lines, longer, |lines|);
    assert longer[|longer| - 1] == line;
  }

  /** The load of a prefix depends on the prefix only. */
  lemma {:induction false} LoadRowsPrefix(lines: seq<string>, longer: seq<string>, n: nat)
    requires 1 <= n <= |lines| <= |longer| && lines == longer[..|lines|]
    ensures LoadRows(longer, n) == LoadRows(lines, n)
  {
    if n > 1 {
      LoadRowsPrefix(lines, longer, n - 1);
      assert longer[n - 1] == lines[n - 1];
    }
  }

  // ---------------------------------------------------------------- the service

  class PatientService {
    var patients: map<string, Patient>
    var counter: int
    /** The lines of `patients.csv`. */
    var table: seq<string>
    /** The directory `data/patients`: file name to content. */
    var fastaFiles: map<string, string>
    /** The rows `generateDiseaseReport` has appended to `disease_detections.csv`. */
    var reports: seq<DetectionReport>
    var diseases: DiseaseDb

    predicate Valid()
      reads this
    {
      RegistryValid(Registry(patients, counter)) && diseases.Valid()
    }

    /** The fields before `loadPatientsFromCsv` runs. */
    constructor Fresh(table: seq<string>, fastaFiles: map<string, string>)
      ensures this.table == table && this.fastaFiles == fastaFiles
      ensures patients == map[] && counter == 1 && reports == [] && diseases == DiseaseDb(map[], map[])
      ensures Valid()
    {
      this.patients := map[];
      this.counter := 1;
      this.table := table;
      this.fastaFiles := fastaFiles;
      this.reports := [];
      this.diseases := DiseaseDb(map[], map[]);
    }

    /** The body of the loop of `loadPatientsFromCsv` for one line. */
    method LoadLineInto(line: string) returns (r: Outcome<Failure>)
      modifies this`patients, this`counter
      ensures var next := LoadLine(Registry(old(patients), old(counter)), line);
        && (r.Pass? <==> next.Ok?)
        && (r.Pass? ==> patients == next.value.patients && counter == next.value.counter)
        && (r.Fail? ==> r.error == next.error)
    {
      var values := JavaSplit(line, ',');
      if |values| >= 12 {
        var row := RowToPatient(values);
        if row.Err? {
          return Fail(row.error);
        }
        var patient := row.value;
        patients := patients[patient.patientId := patient];
        var number := IdNumber(patient.patientId);
        if number.Err? {
          return Fail(number.error);
        }
        counter := Raise(counter, number.value);
      }
      return Pass;
    }

    /** `loadPatientsFromCsv()`: the loop over the file's lines. */
    method LoadPatientsFromCsv() returns (r: Outcome<Failure>)
      requires patients == map[] && counter == 1
      modifies this`patients, this`counter
      ensures r.Pass? <==> Loaded(table).Ok?
      ensures r.Pass? ==> patients == Loaded(table).value.patients && counter == Loaded(table).value.counter
      ensures r.Fail? ==> r.error == Loaded(table).error
    {
      if table == [] {
        return Pass;
      }
      var lines := table;
      var i := 1;
      while i < |lines|
        invariant 1 <= i <= |lines|
        invariant LoadRows(lines, i) == Ok(Registry(patients, counter))
      {
        LoadRowsNext(lines, i, Registry(patients, counter));
        var loaded := LoadLineInto(lines[i]);
        if loaded.Fail? {
          LoadRowsStops(lines, i + 1, |lines|);
          return loaded;
        }
        i := i + 1;
      }
      return Pass;
    }

    /** `getPatient(patientId)`: the JSON of an active record. */
    function GetPatient(patientId: string): (r: Result<JsonObject, Failure>)
      reads this
      requires Valid()
      ensures r.Ok? <==> patientId in patients && patients[patientId].active
      ensures r.Ok? ==> PatientOfJson(r.value) == Some(patients[patientId])
      ensures r.Err? ==> r.error == NotFoundError(patientId)
    {
      if patientId !in patients || !patients[patientId].active then Err(NotFoundError(patientId))
      else
        JsonRoundTrip(patients[patientId]);
        Ok(PatientJson(patients[patientId]))
    }

    /** `checkForDiseases(patient, fastaContent)`: the genome without its header
      line and newlines is scanned at the 0.8 threshold and one report row is
      appended per match. */
    method CheckForDiseases(patientId: string, fastaContent: string)
      requires diseases.Valid()
      modifies this`reports
      ensures ReportsAppended(old(reports), reports, diseases, patientId, fastaContent)
    {
      var sequence := CleanSequence(fastaContent);
      var matches := CheckForMatches(diseases, sequence, DetectionThreshold);
      var rows := ReportsOf(patientId, matches);
      ReportsDetect(diseases, patientId, sequence, matches);
      var before := reports;
      reports := reports + rows;
      assert reports[..|before|] == before;
      assert reports[|before|..] == rows;
    }

    /** The storing half of `createPatient`: the FASTA file is written under
      the record's file name, the record put in the map, its line appended
      to `patients.csv` and the genome scanned. */
    method AddPatient(patient: Patient, fastaContent: string)
      requires Valid() && patient.patientId == IdFor(counter) && IntMin <= patient.age <= IntMax
      modifies this`patients, this`counter, this`table, this`fastaFiles, this`reports
      ensures Valid()
      ensures patients == old(patients)[patient.patientId := patient] && counter == old(counter) + 1
      ensures table == old(table) + [PatientCsv(patient)]
      ensures fastaFiles == old(fastaFiles)[patient.patientId + ".fasta" := fastaContent]
      ensures ReportsAppended(old(reports), reports, diseases, patient.patientId, fastaContent)
      ensures old(counter) < IntMax ==> patient.patientId !in old(patients)
    {
      var id := patient.patientId;
      if counter < IntMax {
        FreshId(patients, counter);
      }
      AddKeepsValid(Registry(patients, counter), patient);
      counter, fastaFiles, patients, table :=
        counter + 1, fastaFiles[id + ".fasta" := fastaContent], patients[id := patient], table + [PatientCsv(patient)];
      CheckForDiseases(id, fastaContent);
    }

    /** `createPatient(metadata, fastaContent)` */
    method CreatePatient(metadata: JsonObject, fastaContent: string, now: int, sha256: string -> seq<byte>) returns (r: Result<string, Failure>)
      requires Valid()
      modifies this`patients, this`counter, this`table, this`fastaFiles, this`reports
      ensures Valid()
      ensures var created := NewPatient(old(patients), metadata, fastaContent, IdFor(old(counter)), HexOf(sha256(fastaContent)), now);
        && (r.Ok? <==> created.Ok?)
        && (r.Err? ==> r.error == created.error)
        && (r.Ok? ==> r.value == IdFor(old(counter)) && patients == old(patients)[r.value := created.value])
        && (r.Ok? ==> table == old(table) + [PatientCsv(created.value)])
      ensures r.Err? ==> patients == old(patients) && counter == old(counter) && table == old(table)
                         && fastaFiles == old(fastaFiles) && reports == old(reports)
      ensures r.Ok? ==> counter == old(counter) + 1 && fastaFiles == old(fastaFiles)[r.value + ".fasta" := fastaContent]
      ensures r.Ok? ==> ReportsAppended(old(reports), reports, diseases, r.value, fastaContent)
      ensures r.Ok? && old(counter) < IntMax ==> r.value !in old(patients)
    {
      // The digest is pure, so reading it before the checks changes nothing.
      var checksum := CalculateChecksum(fastaContent, sha256);
      var id := IdFor(counter);
      var created := NewPatient(patients, metadata, fastaContent, id, checksum, now);
      if created.Err? {
        return Err(created.error);
      }
      AddPatient(created.value, fastaContent);
      return Ok(id);
    }

    /** `updatePatientInCsv(patient)`: the file rewritten line by line. */
    method UpdatePatientInCsv(patient: Patient) returns (r: Outcome<Failure>)
      modifies this`table
      ensures old(table) == [] ==> r == Fail(EmptyFileError) && table == old(table)
      ensures old(table) != [] ==> r == Pass && table == RewriteTable(old(table), patient)
    {
      if table == [] {
        return Fail(EmptyFileError);
      }
      var lines := table;
      var written := [lines[0]];
      for i := 1 to |lines|
        invariant |written| == i && written[0] == lines[0]
        invariant forall j :: 1 <= j < i ==> written[j] == RewriteLine(lines[j], patient)
      {
        if StartsWith(lines[i], patient.patientId + ",") {
          written := written + [PatientCsv(patient)];
        } else {
          written := written + [lines[i]];
        }
      }
      table := written;
      return Pass;
    }

    /** `patients.put(id, patient)` for a record already on file under that id. */
    method Replace(patient: Patient)
      requires Valid() && patient.patientId in patients && IntMin <= patient.age <= IntMax
      modifies this`patients
      ensures Valid() && patients == old(patients)[patient.patientId := patient]
    {
      ReplaceKeepsValid(Registry(patients, counter), patient);
      patients := patients[patient.patientId := patient];
    }

    /** The end of the `try` of `updatePatient` once the setters and the FASTA
      checks have passed: a FASTA that is given is written and scanned, then
      `patients.csv` is rewritten; its failure is wrapped. */
    method SaveUpdate(patient: Patient, fastaContent: Option<string>) returns (r: Outcome<Failure>)
      requires diseases.Valid()
      modifies this`table, this`fastaFiles, this`reports
      ensures FastaGiven(fastaContent) ==>
        fastaFiles == old(fastaFiles)[patient.patientId + ".fasta" := fastaContent.value]
        && ReportsAppended(old(reports), reports, diseases, patient.patientId, fastaContent.value)
      ensures !FastaGiven(fastaContent) ==> fastaFiles == old(fastaFiles) && reports == old(reports)
      ensures old(table) == [] ==> r == Fail(UpdateFailure(EmptyFileError)) && table == old(table)
      ensures old(table) != [] ==> r == Pass && table == RewriteTable(old(table), patient)
    {
      if FastaGiven(fastaContent) {
        fastaFiles := fastaFiles[patient.patientId + ".fasta" := fastaContent.value];
        CheckForDiseases(patient.patientId, fastaContent.value);
      }
      var written := UpdatePatientInCsv(patient);
      if written.Fail? {
        return Fail(UpdateFailure(written.error));
      }
      return Pass;
    }

    /** `updatePatient(patientId, metadata, fastaContent)`: the setters change
      the record in memory one by one, so a failure part-way keeps the
      changes made before it. */
    method UpdatePatient(patientId: string, metadata: JsonObject, fastaContent: Option<string>, sha256: string -> seq<byte>) returns (r: Outcome<Failure>)
      requires Valid()
      modifies this`patients, this`table, this`fastaFiles, this`reports
      ensures Valid()
      ensures patientId !in old(patients) || !old(patients)[patientId].active ==>
        r == Fail(NotFoundError(patientId)) && patients == old(patients) && table == old(table)
        && fastaFiles == old(fastaFiles) && reports == old(reports)
      ensures patientId in old(patients) && old(patients)[patientId].active ==>
        var u := UpdatedRecord(old(patients)[patientId], patientId, metadata, fastaContent, sha256);
        && patients == old(patients)[patientId := u.patient]
        && (u.failure.Some? ==>
              r == Fail(UpdateFailure(u.failure.value)) && table == old(table)
              && fastaFiles == old(fastaFiles) && reports == old(reports))
        && (u.failure.None? && FastaGiven(fastaContent) ==>
              fastaFiles == old(fastaFiles)[patientId + ".fasta" := fastaContent.value]
              && ReportsAppended(old(reports), reports, diseases, patientId, fastaContent.value))
        && (u.failure.None? && !FastaGiven(fastaContent) ==>
              fastaFiles == old(fastaFiles) && reports == old(reports))
        && (u.failure.None? && old(table) == [] ==>
              r == Fail(UpdateFailure(EmptyFileError)) && table == old(table))
        && (u.failure.None? && old(table) != [] ==>
              r == Pass && table == RewriteTable(old(table), u.patient))
    {
      if patientId !in patients || !patients[patientId].active {
        return Fail(NotFoundError(patientId));
      }
      var u := UpdatedRecord(patients[patientId], patientId, metadata, fastaContent, sha256);
      Replace(u.patient);
      if u.failure.Some? {
        return Fail(UpdateFailure(u.failure.value));
      }
      r := SaveUpdate(u.patient, fastaContent);
    }

    /** `deletePatient(patientId)`: the record is kept and marked inactive; a
      record already inactive is accepted again. The failure of the rewrite
      is not wrapped. */
    method DeletePatient(patientId: string) returns (r: Outcome<Failure>)
      requires Valid()
      modifies this`patients, this`table
      ensures Valid()
      ensures patientId !in old(patients) ==>
        r == Fail(NotFoundError(patientId)) && patients == old(patients) && table == old(table)
      ensures patientId in old(patients) ==>
        && patients == old(patients)[patientId := old(patients)[patientId].(active := false)]
        && (old(table) == [] ==> r == Fail(EmptyFileError) && table == old(table))
        && (old(table) != [] ==> r == Pass && table == RewriteTable(old(table), patients[patientId]))
      ensures GetPatient(patientId) == Err(NotFoundError(patientId))
    {
      if patientId !in patients {
        return Fail(NotFoundError(patientId));
      }
      var patient := patients[patientId].(active := false);
      Replace(patient);
      r := UpdatePatientInCsv(patient);
    }
  }

  /** `new PatientService(...)`. `existing` is the content of `patients.csv`,
      `None` when the file does not exist (it is then created with its header
      line); `patientFiles` is the FASTA directory; `catalog` and `diseaseFiles`
      are what `new DiseaseService()` reads. A failure propagates unchanged. */
  method Open(existing: Option<seq<string>>, patientFiles: map<string, string>,
              catalog: Option<seq<string>>, diseaseFiles: FileStore)
    returns (r: Result<PatientService, Failure>)
    ensures var lines := if existing.None? then [CsvHeader] else existing.value;
      && (r.Ok? <==> Loaded(lines).Ok? && CatalogOf(catalog).Ok?)
      && (r.Err? && Loaded(lines).Err? ==> r.error == Loaded(lines).error)
      && (r.Err? && Loaded(lines).Ok? ==> r.error == CatalogOf(catalog).error)
      && (r.Ok? ==>
            fresh(r.value) && r.value.Valid() && r.value.table == lines
            && r.value.patients == Loaded(lines).value.patients && r.value.counter == Loaded(lines).value.counter
            && r.value.diseases == DiseaseDb(CatalogOf(catalog).value, diseaseFiles)
            && r.value.fastaFiles == patientFiles && r.value.reports == [])
  {
    var lines := if existing.None? then [CsvHeader] else existing.value;
    var service := new PatientService.Fresh(lines, patientFiles);
    var loaded := service.LoadPatientsFromCsv();
    if loaded.Fail? {
      return Err(loaded.error);
    }
    if lines != [] {
      LoadRowsValid(lines, |lines|);
    }
    var db := LoadDiseasesFromCatalog(catalog, diseaseFiles);
    if db.Err? {
      return Err(db.error);
    }
    service.diseases := db.value;
    return Ok(service);
  }
}
