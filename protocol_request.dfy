/** `ProtocolRequest`: a request line `COMMAND|a|b` becomes a command with the
    fields that command needs. Every `END` marker is deleted first, wherever it
    occurs, the text is trimmed and then cut at the first two `|`. */
module ProtocolRequest {
  import opened Wrappers
  import opened Common
  import opened JavaText
  import opened Json

  datatype Request = Request(
    command: string,
    patientId: Option<string>,
    metadata: Option<JsonObject>,
    fastaContent: Option<string>)

  /** `rawRequest.replace("\nEND\n", "").replace("END", "").trim()` */
  function CleanRequest(raw: string): string
  {
    Trim(RemoveAll(RemoveAll(raw, "\nEND\n"), "END"))
  }

  /** `cleanRequest.split("\\|", 3)` */
  function Parts(raw: string): (parts: seq<string>)
    ensures 1 <= |parts| <= 3
  {
    SplitLimit(CleanRequest(raw), Delimiter, 3)
  }

  predicate IsKnownCommand(command: string)
  {
    command == CmdCreatePatient || command == CmdGetPatient || command == CmdUpdatePatient
    || command == CmdDeletePatient || command == CmdGetPatientCount
  }

  /** The field lists the parser accepts, stated per command. */
  predicate AcceptsParts(parts: seq<string>, parseJson: JsonParser)
    requires |parts| >= 1
  {
    var command := Trim(parts[0]);
    || (command == CmdCreatePatient && |parts| >= 3 && parseJson(parts[1]).Ok?)
    || ((command == CmdGetPatient || command == CmdDeletePatient) && |parts| >= 2)
    || (command == CmdUpdatePatient && |parts| >= 3 && parseJson(parts[2]).Ok?)
    || command == CmdGetPatientCount
  }

  /** What an accepted field list turns into, stated per command. */
  predicate Delivers(parts: seq<string>, parseJson: JsonParser, req: Request)
    requires |parts| >= 1
  {
    && req.command == Trim(parts[0]) && IsKnownCommand(req.command)
    && (req.command == CmdCreatePatient ==>
          |parts| >= 3 && req.patientId.None? && parseJson(parts[1]).Ok? && req.metadata == Some(parseJson(parts[1]).value)
          && req.fastaContent == Some(parts[2]))
    && (req.command == CmdGetPatient || req.command == CmdDeletePatient ==>
          |parts| >= 2 && req.patientId == Some(Trim(parts[1])) && req.metadata.None? && req.fastaContent.None?)
    && (req.command == CmdUpdatePatient ==>
          |parts| >= 3 && req.patientId == Some(Trim(parts[1])) && parseJson(parts[2]).Ok?
          && req.metadata == Some(parseJson(parts[2]).value)
          && req.fastaContent.None?)
    && (req.command == CmdGetPatientCount ==>
          req.patientId == Some(CmdGetPatientCount) && req.metadata.None? && req.fastaContent.None?)
  }

  /** The switch of `parseRequest`, reporting the message of whatever it throws. */
  function ParseParts(parts: seq<string>, parseJson: JsonParser): (r: Result<Request, string>)
    requires |parts| >= 1
    ensures r.Ok? <==> AcceptsParts(parts, parseJson)
    ensures r.Ok? ==> Delivers(parts, parseJson, r.value)
  {
    var command := Trim(parts[0]);
    if command == CmdCreatePatient then
      if |parts| < 3 then Err("CREATE_PATIENT requires metadata and FASTA")
      else match parseJson(parts[1])
        case Err(e) => Err(e)
        case Ok(m) => Ok(Request(command, None, Some(m), Some(parts[2])))
    else if command == CmdGetPatient then
      if |parts| < 2 then Err("GET_PATIENT requires patient ID")
      else Ok(Request(command, Some(Trim(parts[1])), None, None))
    else if command == CmdUpdatePatient then
      if |parts| < 3 then Err("UPDATE_PATIENT requires patient ID and metadata")
      else match parseJson(parts[2])
        // `parts.length > 3` can never hold for a split limited to three pieces
        case Err(e) => Err(e)
        case Ok(m) => Ok(Request(command, Some(Trim(parts[1])), Some(m), None))
    else if command == CmdDeletePatient then
      if |parts| < 2 then Err("DELETE_PATIENT requires patient ID")
      else Ok(Request(command, Some(Trim(parts[1])), None, None))
    else if command == CmdGetPatientCount then
      Ok(Request(command, Some(command), None, None))
    else Err("Unknown command: " + command)
  }

  const ParseFailurePrefix: string := "Failed to parse request: "

  /** `new ProtocolRequest(rawRequest)`: whatever goes wrong is re-thrown as an
      INVALID_FORMAT `ProtocolException` whose message names the cause. */
  function ParseRequest(raw: string, parseJson: JsonParser): (r: Result<Request, Failure>)
    ensures r.Ok? <==> AcceptsParts(Parts(raw), parseJson)
    ensures r.Ok? ==> Delivers(Parts(raw), parseJson, r.value)
    ensures r.Err? ==> r.error.ProtocolError? && r.error.code == InvalidFormat
    ensures r.Err? ==> StartsWith(r.error.message, ParseFailurePrefix)
  {
    match ParseParts(Parts(raw), parseJson)
    case Ok(req) => Ok(req)
    case Err(message) =>
      assert (ParseFailurePrefix + message)[..|ParseFailurePrefix|] == ParseFailurePrefix;
      Err(ProtocolError(InvalidFormat, ParseFailurePrefix + message))
  }

  // ---------------------------------------------------------------- cleaning

  /** Deleting `END` is not idempotent: the pieces around one occurrence can form another. */
  lemma CleaningReformsMarker()
    ensures RemoveAll("EENDND", "END") == "END"
  {
    assert StartsWith("ENDND"[..], "END");
    assert "EENDND"[1..] == "ENDND";
    assert "ENDND"[3..] == "ND";
    assert "EENDND"[..3][1] != "END"[1];
    assert !StartsWith("ND", "END");
    assert "ND"[1..] == "D";
    assert !StartsWith("D", "END");
    assert RemoveAll("ND", "END") == "ND";
  }

  /** A FASTA header containing `END` loses it before the FASTA is ever validated. */
  lemma HeaderLosesMarker()
    ensures RemoveAll(">BLENDED", "END") == ">BLED"
  {
    assert ">BLENDED"[1..] == "BLENDED";
    assert "BLENDED"[1..] == "LENDED";
    assert "LENDED"[1..] == "ENDED";
    assert StartsWith("ENDED", "END");
    assert "ENDED"[3..] == "ED";
    assert !StartsWith(">BLENDED", "END") && !StartsWith("BLENDED", "END") && !StartsWith("LENDED", "END");
    assert !StartsWith("ED", "END") && "ED"[1..] == "D" && !StartsWith("D", "END");
  }

  /** Text without `END` passes both deletions untouched. */
  lemma CleanWithoutMarker(s: string)
    requires !Contains(s, "END")
    ensures RemoveAll(RemoveAll(s, "\nEND\n"), "END") == s
  {
    if Contains(s, "\nEND\n") {
      assert "\nEND\n"[1..4] == "END";
      ContainsPiece(s, "\nEND\n", "END", 1);
    }
    RemoveAllAbsent(s, "\nEND\n");
    RemoveAllAbsent(s, "END");
  }
}
