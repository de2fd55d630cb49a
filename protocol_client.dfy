/** `ProtocolClient`: the request lines the client writes for each command and
    the reading of the count reply, together with what the server-side parser
    makes of those lines. The JSON text is what the client's `metadata.toString()`
    printed. */
module ProtocolClient {
  import opened Wrappers
  import opened Common
  import opened JavaText
  import opened Json
  import opened ProtocolRequest

  /** `"CREATE_PATIENT|" + metadata + "|" + fastaContent` */
  function CreateRequest(metadataJson: string, fastaContent: string): (r: string)
    ensures Delimiter in r && IndexOf(r, Delimiter) == |CmdCreatePatient|
  {
    var r := CmdCreatePatient + [Delimiter] + metadataJson + [Delimiter] + fastaContent;
    assert r[|CmdCreatePatient|] == Delimiter && r[..|CmdCreatePatient|] == CmdCreatePatient;
    IndexOfFirst(r, Delimiter, |CmdCreatePatient|);
    r
  }

  /** `"GET_PATIENT|" + patientId` */
  function GetRequest(patientId: string): (r: string)
    ensures Delimiter in r && IndexOf(r, Delimiter) == |CmdGetPatient|
  {
    var r := CmdGetPatient + [Delimiter] + patientId;
    assert r[|CmdGetPatient|] == Delimiter && r[..|CmdGetPatient|] == CmdGetPatient;
    IndexOfFirst(r, Delimiter, |CmdGetPatient|);
    r
  }

  /** `"DELETE_PATIENT|" + patientId` */
  function DeleteRequest(patientId: string): (r: string)
    ensures Delimiter in r && IndexOf(r, Delimiter) == |CmdDeletePatient|
  {
    var r := CmdDeletePatient + [Delimiter] + patientId;
    assert r[|CmdDeletePatient|] == Delimiter && r[..|CmdDeletePatient|] == CmdDeletePatient;
    IndexOfFirst(r, Delimiter, |CmdDeletePatient|);
    r
  }

  /** The builder of `sendUpdatePatient`: the FASTA is appended, after one more
      `|`, only when it is present and not blank. */
  function UpdateRequest(patientId: string, metadataJson: string, fastaContent: Option<string>): (r: string)
    ensures Delimiter in r && IndexOf(r, Delimiter) == |CmdUpdatePatient|
    ensures fastaContent.None? ==> r == CmdUpdatePatient + [Delimiter] + patientId + [Delimiter] + metadataJson
    ensures fastaContent.Some? && Trim(fastaContent.value) == [] ==>
      r == CmdUpdatePatient + [Delimiter] + patientId + [Delimiter] + metadataJson
  {
    var head := CmdUpdatePatient + [Delimiter] + patientId + [Delimiter] + metadataJson;
    var r := if fastaContent.Some? && Trim(fastaContent.value) != [] then head + [Delimiter] + fastaContent.value else head;
    assert r[|CmdUpdatePatient|] == Delimiter && r[..|CmdUpdatePatient|] == CmdUpdatePatient;
    IndexOfFirst(r, Delimiter, |CmdUpdatePatient|);
    r
  }

  /** The count request is the bare command. */
  const CountRequest: string := CmdGetPatientCount

  /** The reading of the count reply in `sendGetAllPatients`: the text after the
      first `:`, trimmed, as an `int`. Too few pieces is the
      `ArrayIndexOutOfBoundsException`, a non-number the `NumberFormatException`. */
  function ParseCountReply(response: string): (r: Result<int, Failure>)
    ensures r.Ok? ==> |JavaSplit(response, ':')| >= 2 && ParseInt(Trim(JavaSplit(response, ':')[1])) == Some(r.value)
    ensures |JavaSplit(response, ':')| < 2 ==> r.Err?
  {
    var parts := JavaSplit(response, ':');
    if |parts| < 2 then Err(RuntimeError("Index 1 out of bounds for length " + IntToString(|parts|)))
    else
      var numberStr := Trim(parts[1]);
      match ParseInt(numberStr)
      case Some(n) => Ok(n)
      case None => Err(RuntimeError("For input string: \"" + numberStr + "\""))
  }

  // ---------------------------------------------------------------- round trips

  /** No command word followed by its delimiter holds `END`. */
  lemma CommandPrefixHasNoMarker(cmd: string)
    requires IsKnownCommand(cmd)
    ensures !Contains(cmd + [Delimiter], "END") && !Contains(cmd, "END")
  {
    if cmd == CmdUpdatePatient {
      assert cmd + [Delimiter] == "UPDATE_PATI" + "ENT|";
      NoOccurrenceInPieces("UPDATE_PATI", "ENT|", "END", 1, 2);
    } else if cmd == CmdDeletePatient {
      assert cmd + [Delimiter] == "DELETE_PATI" + "ENT|";
      NoOccurrenceInPieces("DELETE_PATI", "ENT|", "END", 1, 2);
    } else {
      NoCharNoContains(cmd + [Delimiter], "END", 2);
    }
    if Contains(cmd, "END") {
      ContainsExtend(cmd, [Delimiter], "END");
    }
  }

  /** Appending a field after a delimiter keeps text free of `END`. */
  lemma AppendField(prefix: string, field: string)
    requires !Contains(prefix + [Delimiter], "END") && !Contains(field, "END")
    ensures !Contains(prefix + [Delimiter] + field, "END")
  {
    NoOccurrenceAcross(prefix + [Delimiter], field, "END");
  }

  lemma AppendDelimiter(prefix: string)
    requires !Contains(prefix, "END")
    ensures !Contains(prefix + [Delimiter], "END")
  {
    NoCharNoContains([Delimiter], "END", 0);
    NoOccurrenceBefore(prefix, [Delimiter], "END");
  }

  /** Text without `END` and without whitespace at its ends is left alone by
      the server's cleaning. */
  lemma CleanOfPlain(raw: string)
    requires raw != [] && !Contains(raw, "END")
    requires !IsTrimmable(raw[0]) && !IsTrimmable(raw[|raw| - 1])
    ensures CleanRequest(raw) == raw
  {
    CleanWithoutMarker(raw);
    TrimUnchanged(raw);
  }

  /** A line whose fixed head starts and ends with a non-blank character, and
      which holds no `END`, loses only the trailing whitespace of its tail. */
  lemma CleanOfLine(head: string, tail: string)
    requires head != [] && !IsTrimmable(head[0]) && !IsTrimmable(head[|head| - 1])
    requires !Contains(head + tail, "END")
    ensures CleanRequest(head + tail) == head + TrimEnd(tail)
  {
    var raw := head + tail;
    CleanWithoutMarker(raw);
    assert raw[0] == head[0];
    TrimStartNoop(raw);
    TrimEndAppend(head, tail);
  }

  /** The pieces of `cmd|id` for a command word of GET or DELETE: the id keeps
      its leading whitespace and loses its trailing whitespace. */
  lemma IdRequestParts(cmd: string, patientId: string)
    requires cmd != [] && !IsTrimmable(cmd[0]) && Delimiter !in cmd && !Contains(cmd + [Delimiter], "END")
    requires Delimiter !in patientId && !Contains(patientId, "END")
    ensures Parts(cmd + [Delimiter] + patientId) == [cmd, TrimEnd(patientId)]
  {
    var head := cmd + [Delimiter];
    var field := TrimEnd(patientId);
    AppendField(cmd, patientId);
    assert head[0] == cmd[0] && head[|head| - 1] == Delimiter;
    CleanOfLine(head, patientId);
    SplitLimitField(cmd, field, Delimiter, 3);
    assert Delimiter !in field by {
      assert field == patientId[..|field|];
    }
    assert SplitLimit(field, Delimiter, 2) == [field];
  }

  /** GET and DELETE take the trimmed second field as the id. */
  lemma IdPartsParse(parts: seq<string>, parseJson: JsonParser)
    requires |parts| >= 2 && (Trim(parts[0]) == CmdGetPatient || Trim(parts[0]) == CmdDeletePatient)
    ensures ParseParts(parts, parseJson) == Ok(Request(Trim(parts[0]), Some(Trim(parts[1])), None, None))
  {
  }

  lemma IdRequestParse(raw: string, parseJson: JsonParser)
    requires |Parts(raw)| >= 2 && (Trim(Parts(raw)[0]) == CmdGetPatient || Trim(Parts(raw)[0]) == CmdDeletePatient)
    ensures ParseRequest(raw, parseJson) == Ok(Request(Trim(Parts(raw)[0]), Some(Trim(Parts(raw)[1])), None, None))
  {
    IdPartsParse(Parts(raw), parseJson);
  }

  lemma CommandWordEnds(cmd: string)
    requires IsKnownCommand(cmd)
    ensures cmd != [] && !IsTrimmable(cmd[0]) && !IsTrimmable(cmd[|cmd| - 1])
  {
  }

  lemma CommandWordTrimmed(cmd: string)
    requires IsKnownCommand(cmd)
    ensures Trim(cmd) == cmd
  {
    TrimUnchanged(cmd);
  }

  lemma CommandWordHasNoDelimiter(cmd: string)
    requires IsKnownCommand(cmd)
    ensures Delimiter !in cmd
  {
  }

  /** The command words carry no whitespace, no `|` and, with their
      delimiter, no `END`. */
  lemma CommandWordFacts(cmd: string)
    requires IsKnownCommand(cmd)
    ensures cmd != [] && !IsTrimmable(cmd[0]) && !IsTrimmable(cmd[|cmd| - 1])
    ensures Trim(cmd) == cmd && Delimiter !in cmd
    ensures !Contains(cmd + [Delimiter], "END") && !Contains(cmd, "END")
  {
    CommandWordEnds(cmd);
    CommandWordTrimmed(cmd);
    CommandWordHasNoDelimiter(cmd);
    CommandPrefixHasNoMarker(cmd);
  }

  /** A field list `[cmd, id]` of GET or DELETE parses to that command and the trimmed id. */
  lemma IdRequestParses(raw: string, cmd: string, field: string, parseJson: JsonParser)
    requires cmd == CmdGetPatient || cmd == CmdDeletePatient
    requires Parts(raw) == [cmd, field]
    ensures ParseRequest(raw, parseJson) == Ok(Request(cmd, Some(Trim(field)), None, None))
  {
    CommandWordFacts(cmd);
    IdRequestParse(raw, parseJson);
  }

  /** An id without `|` and without `END` reaches the server after a GET or
      DELETE command word as its trimmed text. */
  lemma IdRoundTrip(cmd: string, patientId: string, parseJson: JsonParser)
    requires cmd == CmdGetPatient || cmd == CmdDeletePatient
    requires Delimiter !in patientId && !Contains(patientId, "END")
    ensures ParseRequest(cmd + [Delimiter] + patientId, parseJson) == Ok(Request(cmd, Some(Trim(patientId)), None, None))
  {
    CommandWordFacts(cmd);
    IdRequestParts(cmd, patientId);
    IdRequestParses(cmd + [Delimiter] + patientId, cmd, TrimEnd(patientId), parseJson);
    TrimOfTrimEnd(patientId);
  }

  lemma GetRoundTrip(patientId: string, parseJson: JsonParser)
    requires Delimiter !in patientId && !Contains(patientId, "END")
    ensures ParseRequest(GetRequest(patientId), parseJson) == Ok(Request(CmdGetPatient, Some(Trim(patientId)), None, None))
  {
    IdRoundTrip(CmdGetPatient, patientId, parseJson);
  }

  lemma DeleteRoundTrip(patientId: string, parseJson: JsonParser)
    requires Delimiter !in patientId && !Contains(patientId, "END")
    ensures ParseRequest(DeleteRequest(patientId), parseJson) == Ok(Request(CmdDeletePatient, Some(Trim(patientId)), None, None))
  {
    IdRoundTrip(CmdDeletePatient, patientId, parseJson);
  }

  lemma Regroup(a: string, b: string, c: string)
    ensures a + [Delimiter] + b + [Delimiter] + c == a + [Delimiter] + (b + [Delimiter] + c)
  {
  }

  lemma RegroupTail(a: string, b: string, c: string)
    ensures a + b + [Delimiter] + c == a + (b + [Delimiter] + c)
  {
  }

  /** A CREATE or UPDATE line: the command word and two more fields, the last
      of which keeps any further `|` and loses its trailing whitespace. */
  lemma ThreeFieldParts(cmd: string, field: string, last: string)
    requires cmd != [] && !IsTrimmable(cmd[0]) && Delimiter !in cmd && !Contains(cmd + [Delimiter], "END")
    requires Delimiter !in field && !Contains(field, "END") && !Contains(last, "END")
    ensures Parts(cmd + [Delimiter] + field + [Delimiter] + last) == [cmd, field, TrimEnd(last)]
  {
    var head := cmd + [Delimiter] + field + [Delimiter];
    var raw := head + last;
    AppendField(cmd, field);
    AppendDelimiter(cmd + [Delimiter] + field);
    NoOccurrenceAcross(head, last, "END");
    CleanWithoutMarker(raw);
    assert raw[0] == cmd[0];
    TrimStartNoop(raw);
    TrimEndAppend(head, last);
    assert CleanRequest(raw) == head + TrimEnd(last);
    Regroup(cmd, field, TrimEnd(last));
    SplitLimitField(cmd, field + [Delimiter] + TrimEnd(last), Delimiter, 3);
    SplitLimitField(field, TrimEnd(last), Delimiter, 2);
  }

  /** CREATE takes the second field as JSON and the third as the FASTA text. */
  lemma CreatePartsParse(parts: seq<string>, parseJson: JsonParser)
    requires |parts| == 3 && Trim(parts[0]) == CmdCreatePatient && parseJson(parts[1]).Ok?
    ensures ParseParts(parts, parseJson) == Ok(Request(CmdCreatePatient, None, Some(parseJson(parts[1]).value), Some(parts[2])))
  {
  }

  lemma CreateRequestParse(raw: string, parseJson: JsonParser)
    requires |Parts(raw)| == 3 && Trim(Parts(raw)[0]) == CmdCreatePatient && parseJson(Parts(raw)[1]).Ok?
    ensures ParseRequest(raw, parseJson)
         == Ok(Request(CmdCreatePatient, None, Some(parseJson(Parts(raw)[1]).value), Some(Parts(raw)[2])))
  {
    CreatePartsParse(Parts(raw), parseJson);
  }

  lemma CreateLineRoundTrip(cmd: string, metadataJson: string, fastaContent: string, parseJson: JsonParser, metadata: JsonObject)
    requires cmd == CmdCreatePatient
    requires Delimiter !in metadataJson && !Contains(metadataJson, "END") && !Contains(fastaContent, "END")
    requires parseJson(metadataJson) == Ok(metadata)
    ensures ParseRequest(cmd + [Delimiter] + metadataJson + [Delimiter] + fastaContent, parseJson)
         == Ok(Request(cmd, None, Some(metadata), Some(TrimEnd(fastaContent))))
  {
    CommandWordFacts(cmd);
    ThreeFieldParts(cmd, metadataJson, fastaContent);
    CommandWordTrimmed(cmd);
    CreateRequestParse(cmd + [Delimiter] + metadataJson + [Delimiter] + fastaContent, parseJson);
  }

  /** A CREATE request delivers the metadata the JSON text parses to and the
      FASTA without its trailing whitespace; the FASTA may itself contain `|`. */
  lemma CreateRoundTrip(metadataJson: string, fastaContent: string, parseJson: JsonParser, metadata: JsonObject)
    requires Delimiter !in metadataJson && !Contains(metadataJson, "END") && !Contains(fastaContent, "END")
    requires parseJson(metadataJson) == Ok(metadata)
    ensures ParseRequest(CreateRequest(metadataJson, fastaContent), parseJson)
         == Ok(Request(CmdCreatePatient, None, Some(metadata), Some(TrimEnd(fastaContent))))
  {
    CreateLineRoundTrip(CmdCreatePatient, metadataJson, fastaContent, parseJson, metadata);
  }

  /** UPDATE takes the trimmed second field as the id and the third as JSON. */
  lemma UpdatePartsParse(parts: seq<string>, parseJson: JsonParser)
    requires |parts| == 3 && Trim(parts[0]) == CmdUpdatePatient
    ensures ParseParts(parts, parseJson).Ok? <==> parseJson(parts[2]).Ok?
    ensures ParseParts(parts, parseJson).Ok? ==>
      ParseParts(parts, parseJson).value == Request(CmdUpdatePatient, Some(Trim(parts[1])), Some(parseJson(parts[2]).value), None)
  {
  }

  lemma UpdateRequestParse(raw: string, parseJson: JsonParser)
    requires |Parts(raw)| == 3 && Trim(Parts(raw)[0]) == CmdUpdatePatient
    ensures ParseRequest(raw, parseJson).Ok? <==> parseJson(Parts(raw)[2]).Ok?
    ensures ParseRequest(raw, parseJson).Ok? ==>
      ParseRequest(raw, parseJson).value == Request(CmdUpdatePatient, Some(Trim(Parts(raw)[1])), Some(parseJson(Parts(raw)[2]).value), None)
  {
    UpdatePartsParse(Parts(raw), parseJson);
  }

  lemma UpdateLineParts(cmd: string, patientId: string, metadataJson: string, fasta: string)
    requires cmd == CmdUpdatePatient
    requires Delimiter !in patientId && !Contains(patientId, "END")
    requires !Contains(metadataJson, "END") && !Contains(fasta, "END")
    ensures Parts(cmd + [Delimiter] + patientId + [Delimiter] + metadataJson + [Delimiter] + fasta)
         == [cmd, patientId, metadataJson + [Delimiter] + TrimEnd(fasta)]
  {
    var tail := metadataJson + [Delimiter] + fasta;
    AppendDelimiter(metadataJson);
    NoOccurrenceAcross(metadataJson + [Delimiter], fasta, "END");
    CommandWordFacts(cmd);
    ThreeFieldParts(cmd, patientId, tail);
    TrimEndAppend(metadataJson + [Delimiter], fasta);
    RegroupTail(cmd + [Delimiter] + patientId + [Delimiter], metadataJson, fasta);
  }

  lemma UpdateLineParse(cmd: string, patientId: string, metadataJson: string, fasta: string, parseJson: JsonParser)
    requires cmd == CmdUpdatePatient
    requires Delimiter !in patientId && !Contains(patientId, "END")
    requires !Contains(metadataJson, "END") && !Contains(fasta, "END")
    ensures var r := ParseRequest(cmd + [Delimiter] + patientId + [Delimiter] + metadataJson + [Delimiter] + fasta, parseJson);
            (r.Ok? <==> parseJson(metadataJson + [Delimiter] + TrimEnd(fasta)).Ok?) &&
            (r.Ok? ==> r.value.fastaContent.None? && r.value.patientId == Some(Trim(patientId)))
  {
    var raw := cmd + [Delimiter] + patientId + [Delimiter] + metadataJson + [Delimiter] + fasta;
    var tail := metadataJson + [Delimiter] + TrimEnd(fasta);
    UpdateLineParts(cmd, patientId, metadataJson, fasta);
    var parts := Parts(raw);
    assert parts[0] == cmd && parts[1] == patientId && parts[2] == tail;
    CommandWordTrimmed(cmd);
    UpdateRequestParse(raw, parseJson);
  }

  /** The FASTA an UPDATE request carries never reaches `fastaContent`: the split
      stops at three pieces, so it is glued to the metadata text, which the JSON
      parser then has to accept as a whole. */
  lemma UpdateFastaNeverDelivered(patientId: string, metadataJson: string, fasta: string, parseJson: JsonParser)
    requires Delimiter !in patientId && !Contains(patientId, "END")
    requires !Contains(metadataJson, "END") && !Contains(fasta, "END")
    requires exists k :: 0 <= k < |fasta| && !IsTrimmable(fasta[k])
    ensures Parts(UpdateRequest(patientId, metadataJson, Some(fasta)))
         == [CmdUpdatePatient, patientId, metadataJson + [Delimiter] + TrimEnd(fasta)]
    ensures var r := ParseRequest(UpdateRequest(patientId, metadataJson, Some(fasta)), parseJson);
            (r.Ok? <==> parseJson(metadataJson + [Delimiter] + TrimEnd(fasta)).Ok?) &&
            (r.Ok? ==> r.value.fastaContent.None? && r.value.patientId == Some(Trim(patientId)))
  {
    var k :| 0 <= k < |fasta| && !IsTrimmable(fasta[k]);
    TrimNonEmpty(fasta, k);
    UpdateLineParts(CmdUpdatePatient, patientId, metadataJson, fasta);
    UpdateLineParse(CmdUpdatePatient, patientId, metadataJson, fasta, parseJson);
  }

  lemma UpdateNoFastaLineParse(cmd: string, patientId: string, metadataJson: string, parseJson: JsonParser)
    requires cmd == CmdUpdatePatient
    requires Delimiter !in patientId && !Contains(patientId, "END") && !Contains(metadataJson, "END")
    ensures var r := ParseRequest(cmd + [Delimiter] + patientId + [Delimiter] + metadataJson, parseJson);
            (r.Ok? <==> parseJson(TrimEnd(metadataJson)).Ok?) &&
            (r.Ok? ==> r.value == Request(cmd, Some(Trim(patientId)), Some(parseJson(TrimEnd(metadataJson)).value), None))
  {
    var raw := cmd + [Delimiter] + patientId + [Delimiter] + metadataJson;
    CommandWordFacts(cmd);
    ThreeFieldParts(cmd, patientId, metadataJson);
    UpdateRequestParse(raw, parseJson);
  }

  /** An UPDATE request without a FASTA (or with a blank one, which is not
      sent) delivers the trimmed id and what the JSON text, without its
      trailing whitespace, parses to; it is refused exactly when that text
      does not parse. */
  lemma UpdateRoundTrip(patientId: string, metadataJson: string, fastaContent: Option<string>, parseJson: JsonParser)
    requires fastaContent.None? || Trim(fastaContent.value) == []
    requires Delimiter !in patientId && !Contains(patientId, "END") && !Contains(metadataJson, "END")
    ensures var r := ParseRequest(UpdateRequest(patientId, metadataJson, fastaContent), parseJson);
            (r.Ok? <==> parseJson(TrimEnd(metadataJson)).Ok?) &&
            (r.Ok? ==> r.value == Request(CmdUpdatePatient, Some(Trim(patientId)), Some(parseJson(TrimEnd(metadataJson)).value), None))
  {
    UpdateNoFastaLineParse(CmdUpdatePatient, patientId, metadataJson, parseJson);
  }

  /** A line that is a bare command word is one field. */
  lemma BareCommandParts(cmd: string)
    requires IsKnownCommand(cmd)
    ensures Parts(cmd) == [cmd]
  {
    CommandWordFacts(cmd);
    CleanOfPlain(cmd);
  }

  lemma CountLineParses(cmd: string, parseJson: JsonParser)
    requires cmd == CmdGetPatientCount
    ensures ParseRequest(cmd, parseJson) == Ok(Request(cmd, Some(cmd), None, None))
  {
    BareCommandParts(cmd);
    CommandWordTrimmed(cmd);
    assert Trim(Parts(cmd)[0]) == cmd;
  }

  /** The bare count request parses, with the command standing in for the id. */
  lemma CountRequestParses(parseJson: JsonParser)
    ensures ParseRequest(CountRequest, parseJson)
         == Ok(Request(CmdGetPatientCount, Some(CmdGetPatientCount), None, None))
  {
    CountLineParses(CountRequest, parseJson);
  }

  lemma BareGetRejected(cmd: string, parseJson: JsonParser)
    requires cmd == CmdGetPatient
    ensures ParseRequest(cmd, parseJson) == Err(ProtocolError(InvalidFormat, ParseFailurePrefix + "GET_PATIENT requires patient ID"))
  {
    BareCommandParts(cmd);
    CommandWordTrimmed(cmd);
    assert Trim(Parts(cmd)[0]) == cmd;
  }

  /** A GET request without an id is rejected with INVALID_FORMAT. */
  lemma GetWithoutIdRejected(parseJson: JsonParser)
    ensures ParseRequest(CmdGetPatient, parseJson)
         == Err(ProtocolError(InvalidFormat, ParseFailurePrefix + "GET_PATIENT requires patient ID"))
  {
    BareGetRejected(CmdGetPatient, parseJson);
  }

  /** The pieces of `caption: digits` around the colon. */
  lemma CountReplyPieces(caption: string, digits: string)
    requires ':' !in caption && digits != [] && AllDigits(digits)
    ensures JavaSplit(caption + ": " + digits, ':') == [caption, " " + digits]
  {
    var field := " " + digits;
    assert ':' !in field by {
      assert forall k :: 0 <= k < |digits| ==> IsDigit(digits[k]);
    }
    assert caption + ": " + digits == caption + [':'] + field;
    assert Join([caption, field], ':') == caption + [':'] + field;
    JavaSplitJoin([caption, field], ':');
  }

  lemma SpacedDigitsTrimmed(digits: string)
    requires digits != [] && AllDigits(digits)
    ensures Trim(" " + digits) == digits
  {
    var field := " " + digits;
    assert field[1..] == digits;
    assert TrimStart(field) == TrimStart(digits);
    assert IsDigit(digits[0]) && IsDigit(digits[|digits| - 1]);
    TrimUnchanged(digits);
  }

  /** A reply of the form `caption: n` yields `n`. */
  lemma CountReplyOfNumber(caption: string, n: nat)
    requires ':' !in caption && n <= IntMax
    ensures ParseCountReply(caption + ": " + NatToString(n)) == Ok(n)
  {
    var digits := NatToString(n);
    CountReplyPieces(caption, digits);
    SpacedDigitsTrimmed(digits);
    ParseIntegerOfIntToString(n);
    assert ParseInt(digits) == Some(n);
  }
}
