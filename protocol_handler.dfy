/** `ProtocolHandler`: one connection's request, from the text read off the
    socket to the text written back. A trailing `END` marker is cut off, the
    rest is parsed into a request, the request is dispatched to the patient
    store, and every exception is answered with an ERROR reply. The reply is
    stated as a function of the store as it was before the request. */
module ProtocolHandler {
  import opened Wrappers
  import opened Common
  import opened JavaText
  import opened Json
  import opened ProtocolRequest
  import opened ProtocolResponse
  import opened PatientRecord
  import opened FastaValidator
  import opened DiseaseService
  import ProtocolClient
  import PS = PatientService

  const EndMarker: string := "END"
  const InternalErrorPrefix: string := "Internal server error: "
  const UnknownCommandPrefix: string := "Unknown command: "
  const CreatedMessage: string := "Patient created successfully"
  const UpdatedMessage: string := "Patient updated successfully"
  const DeletedMessage: string := "Patient deleted successfully"

  // ---------------------------------------------------------------- the END marker

  /** A message that ends in `END` and a newline has its last `END` four
      characters from the end; `\nEND\n` is one such ending. */
  lemma LastEndMarker(raw: string)
    requires EndsWith(raw, "\nEND\n") || EndsWith(raw, "END\n")
    ensures EndsWith(raw, "END\n") && LastIndexOf(raw, EndMarker) == Some(|raw| - 4)
  {
    EndLineSuffix(raw);
    EndMarkerLast(raw);
  }

  /** `\nEND\n` ends in `END\n`. */
  lemma EndLineSuffix(raw: string)
    requires EndsWith(raw, "\nEND\n") || EndsWith(raw, "END\n")
    ensures EndsWith(raw, "END\n") && raw[|raw| - 1] == '\n' && raw[|raw| - 4..|raw| - 1] == EndMarker
  {
    var n := |raw|;
    if EndsWith(raw, "\nEND\n") {
      assert raw[n - 4..] == raw[n - 5..][1..];
    }
    assert raw[n - 4..] == "END\n";
    assert raw[n - 4..n - 1] == raw[n - 4..][..3];
  }

  /** Where the marker sits when the text ends in it plus a newline. */
  lemma EndMarkerLast(raw: string)
    requires |raw| >= 4 && raw[|raw| - 1] == '\n' && raw[|raw| - 4..|raw| - 1] == EndMarker
    ensures LastIndexOf(raw, EndMarker) == Some(|raw| - 4)
  {
    var init := raw[..|raw| - 1];
    assert init[|init| - 3..] == raw[|raw| - 4..|raw| - 1];
    assert !EndsWith(raw, EndMarker) by {
      assert raw[|raw| - 3..][2] == '\n';
      assert EndMarker[2] == 'D';
    }
    assert EndsWith(init, EndMarker);
  }

  /** The strip of `handleRequest`: a message ending in `\nEND\n` or `END\n`
      is cut at its last `END` and trimmed; any other is left as it is. */
  function StripEndMarker(raw: string): (s: string)
    ensures EndsWith(raw, "END\n") ==> s == Trim(raw[..|raw| - 4])
    ensures !EndsWith(raw, "END\n") ==> s == raw
  {
    if EndsWith(raw, "\nEND\n") || EndsWith(raw, "END\n") then
      LastEndMarker(raw);
      Trim(raw[..LastIndexOf(raw, EndMarker).value])
    else raw
  }

  // ---------------------------------------------------------------- replies

  /** The two `catch` clauses of `processRequest`: a `ProtocolException`
      answers with its own `toResponse()`, any other exception with
      SERVER_ERROR and its message. */
  function FailureResponse(f: Failure): (r: Response)
    ensures !IsSuccess(r) && r.data.None? && r.errorCode.Some? && r.errorMessage.Some?
  {
    match f
    case ProtocolError(code, message) => Error(code.Text(), message)
    case RuntimeError(message) => Error(ServerError.Text(), InternalErrorPrefix + message)
  }

  /** On the wire a failure is `ERROR|` and an object of exactly its code and
      message: the store's own code for a `ProtocolException`, SERVER_ERROR
      for anything else. */
  lemma FailureWire(f: Failure, printJson: JsonPrinter)
    ensures var code := if f.ProtocolError? then f.code else ServerError;
      var message := if f.ProtocolError? then f.message else InternalErrorPrefix + f.message;
      && FailureResponse(f) == Error(code.Text(), message)
      && Wire(FailureResponse(f), printJson)
         == "ERROR|" + printJson(map["code" := JString(code.Text()), "message" := JString(message)])
  {
    var code := if f.ProtocolError? then f.code else ServerError;
    var message := if f.ProtocolError? then f.message else InternalErrorPrefix + f.message;
    assert FailureResponse(f) == Error(code.Text(), message);
    WireOfFailure(FailureResponse(f), printJson);
    ErrorPayloadOfError(code.Text(), message);
  }

  /** The data of a successful create: the new id and a fixed message. */
  function CreatedData(patientId: string): JsonObject
  {
    map["patientId" := JString(patientId), "message" := JString(CreatedMessage)]
  }

  function CreateReply(created: Result<Patient, Failure>): Response
  {
    match created
    case Ok(p) => SuccessData(Some(CreatedData(p.patientId)))
    case Err(e) => FailureResponse(e)
  }

  function GetReply(patients: map<string, Patient>, patientId: string): Response
  {
    if patientId in patients && patients[patientId].active then SuccessData(Some(PatientJson(patients[patientId])))
    else FailureResponse(PS.NotFoundError(patientId))
  }

  function OutcomeReply(outcome: Outcome<Failure>, message: string): Response
  {
    match outcome
    case Pass => SuccessMessage(message)
    case Fail(e) => FailureResponse(e)
  }

  /** The fields each command reads, as the parser always supplies them. */
  predicate Dispatchable(request: Request)
  {
    && (request.command == CmdCreatePatient ==> request.metadata.Some? && request.fastaContent.Some?)
    && (request.command == CmdGetPatient || request.command == CmdDeletePatient ==> request.patientId.Some?)
    && (request.command == CmdUpdatePatient ==> request.patientId.Some? && request.metadata.Some?)
  }

  /** Every request the parser accepts can be dispatched, and an UPDATE never
      carries a FASTA. */
  lemma ParsedDispatchable(raw: string, parseJson: JsonParser)
    requires ParseRequest(raw, parseJson).Ok?
    ensures Dispatchable(ParseRequest(raw, parseJson).value)
    ensures ParseRequest(raw, parseJson).value.command == CmdUpdatePatient ==>
      ParseRequest(raw, parseJson).value.fastaContent.None?
  {
    assert Delivers(Parts(raw), parseJson, ParseRequest(raw, parseJson).value);
  }

  /** The reply of `processRequest` to `request`, from the store's records,
      counter and `patients.csv` as they were before it. GET_PATIENT_COUNT,
      which the parser accepts, has no case of its own. */
  function Reply(patients: map<string, Patient>, counter: nat, table: seq<string>, request: Request,
                 now: int, sha256: string -> seq<byte>): Response
    requires Dispatchable(request)
  {
    var command := request.command;
    if command == CmdCreatePatient then
      var fasta := request.fastaContent.value;
      CreateReply(PS.NewPatient(patients, request.metadata.value, fasta, IdFor(counter), HexOf(sha256(fasta)), now))
    else if command == CmdGetPatient then
      GetReply(patients, request.patientId.value)
    else if command == CmdUpdatePatient then
      OutcomeReply(PS.UpdateOutcome(patients, table, request.patientId.value, request.metadata.value,
                                    request.fastaContent, sha256), UpdatedMessage)
    else if command == CmdDeletePatient then
      OutcomeReply(PS.DeleteOutcome(patients, table, request.patientId.value), DeletedMessage)
    else
      Error(InvalidFormat.Text(), UnknownCommandPrefix + command)
  }

  /** The reply `handleRequest` writes for the text `raw`: the parser's
      INVALID_FORMAT error, or the reply to the parsed request. */
  function Answer(patients: map<string, Patient>, counter: nat, table: seq<string>, raw: string,
                  parseJson: JsonParser, now: int, sha256: string -> seq<byte>): Response
  {
    var request := StripEndMarker(raw);
    match ParseRequest(request, parseJson)
    case Err(e) => FailureResponse(e)
    case Ok(parsed) =>
      ParsedDispatchable(request, parseJson);
      Reply(patients, counter, table, parsed, now, sha256)
  }

  // ---------------------------------------------------------------- reply properties

  /** CREATE succeeds exactly when the store accepts the record, and then
      answers with the new id; a refusal keeps the store's code and message. */
  lemma CreateAnswered(patients: map<string, Patient>, counter: nat, table: seq<string>, request: Request,
                       now: int, sha256: string -> seq<byte>)
    requires request.command == CmdCreatePatient && Dispatchable(request)
    ensures var fasta := request.fastaContent.value;
      var created := PS.NewPatient(patients, request.metadata.value, fasta, IdFor(counter), HexOf(sha256(fasta)), now);
      var r := Reply(patients, counter, table, request, now, sha256);
      && (IsSuccess(r) <==> created.Ok?)
      && (created.Ok? ==> r.data == Some(map["patientId" := JString(IdFor(counter)), "message" := JString(CreatedMessage)]))
      && (created.Err? ==> r == Error(created.error.code.Text(), created.error.message))
  {
  }

  /** GET succeeds exactly for an active record and carries that record's
      JSON, from which the record reads back; otherwise PATIENT_NOT_FOUND. */
  lemma GetAnswered(patients: map<string, Patient>, counter: nat, table: seq<string>, request: Request,
                    now: int, sha256: string -> seq<byte>)
    requires request.command == CmdGetPatient && Dispatchable(request)
    requires PS.AgesInRange(patients)
    ensures var id := request.patientId.value;
      var r := Reply(patients, counter, table, request, now, sha256);
      && (IsSuccess(r) <==> id in patients && patients[id].active)
      && (IsSuccess(r) ==> r.data == Some(PatientJson(patients[id])) && PatientOfJson(r.data.value) == Some(patients[id]))
      && (!IsSuccess(r) ==> r == Error(PatientNotFound.Text(), "Patient not found: " + id))
  {
    var id := request.patientId.value;
    if id in patients {
      JsonRoundTrip(patients[id]);
    }
  }

  /** UPDATE succeeds exactly when the record is active, the update runs
      through and `patients.csv` is not empty. Only the lookup reports
      PATIENT_NOT_FOUND; every later failure is SERVER_ERROR. */
  lemma UpdateAnswered(patients: map<string, Patient>, counter: nat, table: seq<string>, request: Request,
                       now: int, sha256: string -> seq<byte>)
    requires request.command == CmdUpdatePatient && Dispatchable(request)
    ensures var id := request.patientId.value;
      var found := id in patients && patients[id].active;
      var r := Reply(patients, counter, table, request, now, sha256);
      && (IsSuccess(r) <==>
            found && table != []
            && PS.UpdatedRecord(patients[id], id, request.metadata.value, request.fastaContent, sha256).failure.None?)
      && (IsSuccess(r) ==> r == SuccessMessage(UpdatedMessage))
      && (!found ==> r == Error(PatientNotFound.Text(), "Patient not found: " + id))
      && (found && !IsSuccess(r) ==> r.errorCode == Some(ServerError.Text()))
  {
  }

  /** DELETE checks only that the record exists, so a record deleted before is
      deleted again; an empty `patients.csv` surfaces as an internal error. */
  lemma DeleteAnswered(patients: map<string, Patient>, counter: nat, table: seq<string>, request: Request,
                       now: int, sha256: string -> seq<byte>)
    requires request.command == CmdDeletePatient && Dispatchable(request)
    ensures var id := request.patientId.value;
      var r := Reply(patients, counter, table, request, now, sha256);
      && (IsSuccess(r) <==> id in patients && table != [])
      && (IsSuccess(r) ==> r == SuccessMessage(DeletedMessage))
      && (id !in patients ==> r == Error(PatientNotFound.Text(), "Patient not found: " + id))
      && (id in patients && table == [] ==> r == Error(ServerError.Text(), InternalErrorPrefix + "null"))
  {
  }

  predicate IsDispatched(command: string)
  {
    command == CmdCreatePatient || command == CmdGetPatient || command == CmdUpdatePatient || command == CmdDeletePatient
  }

  /** Any other command is answered with INVALID_FORMAT and leaves the store
      alone. */
  lemma OtherCommandAnswered(patients: map<string, Patient>, counter: nat, table: seq<string>, request: Request,
                             now: int, sha256: string -> seq<byte>)
    requires !IsDispatched(request.command)
    ensures Reply(patients, counter, table, request, now, sha256)
         == Error(InvalidFormat.Text(), UnknownCommandPrefix + request.command)
  {
  }

  /** A text the parser refuses is answered with the parser's own
      INVALID_FORMAT error and never reaches the store. */
  lemma ParseFailureAnswered(patients: map<string, Patient>, counter: nat, table: seq<string>, raw: string,
                             parseJson: JsonParser, now: int, sha256: string -> seq<byte>)
    requires ParseRequest(StripEndMarker(raw), parseJson).Err?
    ensures var r := Answer(patients, counter, table, raw, parseJson, now, sha256);
      && r.errorCode == Some(InvalidFormat.Text())
      && r.errorMessage == Some(ParseRequest(StripEndMarker(raw), parseJson).error.message)
      && StartsWith(r.errorMessage.value, ParseFailurePrefix)
  {
  }

  /** The count request the client sends is accepted by the parser but has
      no case in the dispatch: it is answered with INVALID_FORMAT. */
  lemma CountRequestAnswered(patients: map<string, Patient>, counter: nat, table: seq<string>,
                             parseJson: JsonParser, now: int, sha256: string -> seq<byte>)
    ensures Answer(patients, counter, table, ProtocolClient.CountRequest, parseJson, now, sha256)
         == Error(InvalidFormat.Text(), UnknownCommandPrefix + CmdGetPatientCount)
  {
    CountNotStripped(ProtocolClient.CountRequest);
    ProtocolClient.CountRequestParses(parseJson);
  }

  lemma CountNotStripped(cmd: string)
    requires cmd == CmdGetPatientCount
    ensures StripEndMarker(cmd) == cmd
  {
    assert cmd[|cmd| - 1] == 'T';
  }

  /** A text whose last character is not a newline passes the strip unchanged. */
  lemma NotEndTerminated(raw: string)
    requires raw != [] && raw[|raw| - 1] != '\n'
    ensures StripEndMarker(raw) == raw
  {
    assert !EndsWith(raw, "END\n") by {
      assert "END\n"[3] == '\n';
    }
  }

  /** A text without `END` passes the strip unchanged. */
  lemma UnmarkedNotStripped(raw: string)
    requires !Contains(raw, "END")
    ensures StripEndMarker(raw) == raw
  {
  }

  /** A GET or DELETE line built by the client for an id without `|` and
      without `END` is answered as the request for the trimmed id. */
  lemma IdLineAnswered(patients: map<string, Patient>, counter: nat, table: seq<string>, cmd: string, patientId: string,
                       parseJson: JsonParser, now: int, sha256: string -> seq<byte>)
    requires cmd == CmdGetPatient || cmd == CmdDeletePatient
    requires Delimiter !in patientId && !Contains(patientId, "END")
    ensures Answer(patients, counter, table, cmd + [Delimiter] + patientId, parseJson, now, sha256)
         == Reply(patients, counter, table, Request(cmd, Some(Trim(patientId)), None, None), now, sha256)
  {
    var raw := cmd + [Delimiter] + patientId;
    ProtocolClient.CommandPrefixHasNoMarker(cmd);
    ProtocolClient.AppendField(cmd, patientId);
    UnmarkedNotStripped(raw);
    ProtocolClient.IdRoundTrip(cmd, patientId, parseJson);
    ParsedAnswer(patients, counter, table, raw, parseJson, now, sha256, Request(cmd, Some(Trim(patientId)), None, None));
  }

  /** From the client's GET line to the server's reply: an id without `|` and
      without `END` is looked up with its surrounding whitespace trimmed. */
  lemma GetRequestAnswered(patients: map<string, Patient>, counter: nat, table: seq<string>, patientId: string,
                           parseJson: JsonParser, now: int, sha256: string -> seq<byte>)
    requires Delimiter !in patientId && !Contains(patientId, "END")
    ensures Answer(patients, counter, table, ProtocolClient.GetRequest(patientId), parseJson, now, sha256)
         == GetReply(patients, Trim(patientId))
  {
    IdLineAnswered(patients, counter, table, CmdGetPatient, patientId, parseJson, now, sha256);
    GetReplied(patients, counter, table, Request(CmdGetPatient, Some(Trim(patientId)), None, None), now, sha256);
  }

  /** From the client's DELETE line to the server's reply, for the same ids. */
  lemma DeleteRequestAnswered(patients: map<string, Patient>, counter: nat, table: seq<string>, patientId: string,
                              parseJson: JsonParser, now: int, sha256: string -> seq<byte>)
    requires Delimiter !in patientId && !Contains(patientId, "END")
    ensures Answer(patients, counter, table, ProtocolClient.DeleteRequest(patientId), parseJson, now, sha256)
         == OutcomeReply(PS.DeleteOutcome(patients, table, Trim(patientId)), DeletedMessage)
  {
    IdLineAnswered(patients, counter, table, CmdDeletePatient, patientId, parseJson, now, sha256);
    DeleteReplied(patients, counter, table, Request(CmdDeletePatient, Some(Trim(patientId)), None, None), now, sha256);
  }

  /** A text that the strip leaves alone and the parser accepts is answered
      with the reply to the parsed request. */
  lemma ParsedAnswer(patients: map<string, Patient>, counter: nat, table: seq<string>, raw: string,
                     parseJson: JsonParser, now: int, sha256: string -> seq<byte>, request: Request)
    requires StripEndMarker(raw) == raw && ParseRequest(raw, parseJson) == Ok(request)
    ensures Dispatchable(request)
    ensures Answer(patients, counter, table, raw, parseJson, now, sha256) == Reply(patients, counter, table, request, now, sha256)
  {
    ParsedDispatchable(raw, parseJson);
  }

  lemma GetReplied(patients: map<string, Patient>, counter: nat, table: seq<string>, request: Request,
                   now: int, sha256: string -> seq<byte>)
    requires request.command == CmdGetPatient && Dispatchable(request)
    ensures Reply(patients, counter, table, request, now, sha256) == GetReply(patients, request.patientId.value)
  {
  }

  lemma DeleteReplied(patients: map<string, Patient>, counter: nat, table: seq<string>, request: Request,
                      now: int, sha256: string -> seq<byte>)
    requires request.command == CmdDeletePatient && Dispatchable(request)
    ensures Reply(patients, counter, table, request, now, sha256)
         == OutcomeReply(PS.DeleteOutcome(patients, table, request.patientId.value), DeletedMessage)
  {
  }

  // ---------------------------------------------------------------- store effects

  /** The parts of the patient store a request can change. */
  datatype Store = Store(
    patients: map<string, Patient>,
    counter: int,
    table: seq<string>,
    fastaFiles: map<string, string>,
    reports: seq<DetectionReport>)

  function StoreOf(service: PS.PatientService): Store
    reads service
  {
    Store(service.patients, service.counter, service.table, service.fastaFiles, service.reports)
  }

  /** CREATE: an accepted record is put under the next id, which the counter
      then passes; its line is appended to `patients.csv`, its FASTA written
      and scanned. A refused record changes nothing. */
  predicate Created(before: Store, after: Store, diseases: DiseaseDb, metadata: JsonObject, fastaContent: string,
                    now: int, sha256: string -> seq<byte>)
    requires before.counter >= 0
  {
    var id := IdFor(before.counter);
    var created := PS.NewPatient(before.patients, metadata, fastaContent, id, HexOf(sha256(fastaContent)), now);
    if created.Err? then after == before
    else
      && after.patients == before.patients[id := created.value]
      && after.counter == before.counter + 1
      && after.table == before.table + [PatientCsv(created.value)]
      && after.fastaFiles == before.fastaFiles[id + ".fasta" := fastaContent]
      && PS.ReportsAppended(before.reports, after.reports, diseases, id, fastaContent)
  }

  /** UPDATE: an absent or inactive record changes nothing. Otherwise the
      setters' changes stay in memory even when a later step fails; the FASTA
      is written and scanned, and `patients.csv` rewritten, only when every
      check passed (and the file is not empty, for the rewrite). */
  predicate Updated(before: Store, after: Store, diseases: DiseaseDb, patientId: string, metadata: JsonObject,
                    fastaContent: Option<string>, sha256: string -> seq<byte>)
  {
    if patientId !in before.patients || !before.patients[patientId].active then after == before
    else
      var u := PS.UpdatedRecord(before.patients[patientId], patientId, metadata, fastaContent, sha256);
      var saved := u.failure.None?;
      && after.patients == before.patients[patientId := u.patient]
      && after.counter == before.counter
      && after.table == (if saved && before.table != [] then RewriteTable(before.table, u.patient) else before.table)
      && (if saved && PS.FastaGiven(fastaContent) then
            after.fastaFiles == before.fastaFiles[patientId + ".fasta" := fastaContent.value]
            && PS.ReportsAppended(before.reports, after.reports, diseases, patientId, fastaContent.value)
          else after.fastaFiles == before.fastaFiles && after.reports == before.reports)
  }

  /** DELETE: a known record, active or not, is marked inactive and its line
      rewritten (when `patients.csv` is not empty); nothing else changes. */
  predicate Deleted(before: Store, after: Store, patientId: string)
  {
    if patientId !in before.patients then after == before
    else
      var patient := before.patients[patientId].(active := false);
      after == before.(patients := before.patients[patientId := patient],
                       table := if before.table != [] then RewriteTable(before.table, patient) else before.table)
  }

  /** What `processRequest` does to the store, per command: GET and any
      command without a case leave it alone. */
  predicate Effect(before: Store, after: Store, diseases: DiseaseDb, request: Request, now: int,
                   sha256: string -> seq<byte>)
    requires before.counter >= 0 && Dispatchable(request)
  {
    var command := request.command;
    if command == CmdCreatePatient then
      Created(before, after, diseases, request.metadata.value, request.fastaContent.value, now, sha256)
    else if command == CmdUpdatePatient then
      Updated(before, after, diseases, request.patientId.value, request.metadata.value, request.fastaContent, sha256)
    else if command == CmdDeletePatient then
      Deleted(before, after, request.patientId.value)
    else after == before
  }

  /** A request answered with an error leaves the counter and `patients.csv`
      as they were; a refused CREATE changes nothing at all, while UPDATE and
      DELETE may already have changed the record in memory. */
  lemma FailedRequestKeepsRecords(before: Store, after: Store, diseases: DiseaseDb, request: Request, now: int,
                                  sha256: string -> seq<byte>)
    requires before.counter >= 0 && Dispatchable(request)
    requires Effect(before, after, diseases, request, now, sha256)
    requires !IsSuccess(Reply(before.patients, before.counter, before.table, request, now, sha256))
    ensures after.counter == before.counter && after.table == before.table
    ensures request.command == CmdCreatePatient ==> after == before
  {
  }

  /** A successful CREATE adds exactly one record, under the id it answers with. */
  lemma CreatedAddsOne(before: Store, after: Store, diseases: DiseaseDb, request: Request, now: int,
                       sha256: string -> seq<byte>)
    requires before.counter >= 0 && request.command == CmdCreatePatient && Dispatchable(request)
    requires Effect(before, after, diseases, request, now, sha256)
    requires IsSuccess(Reply(before.patients, before.counter, before.table, request, now, sha256))
    ensures var id := IdFor(before.counter);
      && id in after.patients && after.patients.Keys == before.patients.Keys + {id}
      && |after.table| == |before.table| + 1 && after.table[..|before.table|] == before.table
      && Reply(before.patients, before.counter, before.table, request, now, sha256).data == Some(CreatedData(id))
  {
    var id := IdFor(before.counter);
    var fasta := request.fastaContent.value;
    var created := PS.NewPatient(before.patients, request.metadata.value, fasta, id, HexOf(sha256(fasta)), now);
    assert created.Ok?;
    assert created.value.patientId == id;
  }

  // ---------------------------------------------------------------- dispatch

  /** The CREATE_PATIENT case. */
  method Create(service: PS.PatientService, metadata: JsonObject, fastaContent: string, now: int,
                sha256: string -> seq<byte>) returns (r: Response)
    requires service.Valid()
    modifies service
    ensures service.Valid()
    ensures r == CreateReply(PS.NewPatient(old(service.patients), metadata, fastaContent, IdFor(old(service.counter)),
                                           HexOf(sha256(fastaContent)), now))
    ensures Created(old(StoreOf(service)), StoreOf(service), service.diseases, metadata, fastaContent, now, sha256)
    ensures service.diseases == old(service.diseases)
  {
    var created := service.CreatePatient(metadata, fastaContent, now, sha256);
    if created.Err? {
      return FailureResponse(created.error);
    }
    return SuccessData(Some(CreatedData(created.value)));
  }

  /** The GET_PATIENT case. */
  method Get(service: PS.PatientService, patientId: string) returns (r: Response)
    requires service.Valid()
    ensures r == GetReply(service.patients, patientId)
  {
    var found := service.GetPatient(patientId);
    if found.Err? {
      return FailureResponse(found.error);
    }
    return SuccessData(Some(found.value));
  }

  /** The UPDATE_PATIENT case; without a FASTA the FASTA files and the
      detection reports stay as they were. */
  method Update(service: PS.PatientService, patientId: string, metadata: JsonObject, fastaContent: Option<string>,
                sha256: string -> seq<byte>) returns (r: Response)
    requires service.Valid()
    modifies service
    ensures service.Valid()
    ensures r == OutcomeReply(PS.UpdateOutcome(old(service.patients), old(service.table), patientId, metadata,
                                               fastaContent, sha256), UpdatedMessage)
    ensures Updated(old(StoreOf(service)), StoreOf(service), service.diseases, patientId, metadata, fastaContent, sha256)
    ensures service.diseases == old(service.diseases)
  {
    var updated := service.UpdatePatient(patientId, metadata, fastaContent, sha256);
    if updated.Fail? {
      return FailureResponse(updated.error);
    }
    return SuccessMessage(UpdatedMessage);
  }

  /** The DELETE_PATIENT case. */
  method Delete(service: PS.PatientService, patientId: string) returns (r: Response)
    requires service.Valid()
    modifies service
    ensures service.Valid()
    ensures r == OutcomeReply(PS.DeleteOutcome(old(service.patients), old(service.table), patientId), DeletedMessage)
    ensures Deleted(old(StoreOf(service)), StoreOf(service), patientId)
    ensures service.diseases == old(service.diseases)
  {
    var deleted := service.DeletePatient(patientId);
    if deleted.Fail? {
      return FailureResponse(deleted.error);
    }
    return SuccessMessage(DeletedMessage);
  }

  /** `processRequest(request)`: the switch over the command. */
  method ProcessRequest(service: PS.PatientService, request: Request, now: int, sha256: string -> seq<byte>)
    returns (r: Response)
    requires service.Valid() && Dispatchable(request)
    modifies service
    ensures service.Valid()
    ensures r == Reply(old(service.patients), old(service.counter), old(service.table), request, now, sha256)
    ensures Effect(old(StoreOf(service)), StoreOf(service), service.diseases, request, now, sha256)
    ensures service.diseases == old(service.diseases)
    ensures request.command == CmdGetPatient || !IsDispatched(request.command) ==> unchanged(service)
  {
    var command := request.command;
    if command == CmdCreatePatient {
      r := Create(service, request.metadata.value, request.fastaContent.value, now, sha256);
    } else if command == CmdGetPatient {
      r := Get(service, request.patientId.value);
    } else if command == CmdUpdatePatient {
      r := Update(service, request.patientId.value, request.metadata.value, request.fastaContent, sha256);
    } else if command == CmdDeletePatient {
      r := Delete(service, request.patientId.value);
    } else {
      r := Error(InvalidFormat.Text(), UnknownCommandPrefix + command);
    }
  }

  /** `handleRequest()` after `readUTF`: the reply text for the message `raw`.
      A message the parser refuses leaves the store as it was; an UPDATE
      never changes a FASTA file or adds a detection report. */
  method HandleRequest(service: PS.PatientService, raw: string, parseJson: JsonParser, printJson: JsonPrinter,
                       now: int, sha256: string -> seq<byte>) returns (reply: string)
    requires service.Valid()
    modifies service
    ensures service.Valid()
    ensures reply == Wire(Answer(old(service.patients), old(service.counter), old(service.table), raw, parseJson,
                                 now, sha256), printJson)
    ensures service.diseases == old(service.diseases)
    ensures var parsed := ParseRequest(StripEndMarker(raw), parseJson);
      && (parsed.Err? ==> unchanged(service))
      && (parsed.Ok? ==>
            Dispatchable(parsed.value)
            && Effect(old(StoreOf(service)), StoreOf(service), service.diseases, parsed.value, now, sha256))
      && (parsed.Ok? && parsed.value.command == CmdUpdatePatient ==>
            service.fastaFiles == old(service.fastaFiles) && service.reports == old(service.reports))
  {
    var request := StripEndMarker(raw);
    var parsed := ParseRequest(request, parseJson);
    if parsed.Err? {
      return Wire(FailureResponse(parsed.error), printJson);
    }
    ParsedDispatchable(request, parseJson);
    var response := ProcessRequest(service, parsed.value, now, sha256);
    return Wire(response, printJson);
  }
}
