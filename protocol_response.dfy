/** `ProtocolResponse`: the immutable reply record, its factories and its wire
    form `STATUS|json`. Only the strings `SUCCESS` and `ERROR` ever reach the
    wire as a status; JSON text is produced by the caller's printer. */
module ProtocolResponse {
  import opened Wrappers
  import opened Common
  import opened JavaText
  import opened Json

  /** The four record components; a Java `null` is `None`. */
  datatype Response = Response(
    status: string,
    data: Option<JsonObject>,
    errorCode: Option<string>,
    errorMessage: Option<string>)

  /** `isSuccess()` */
  predicate IsSuccess(r: Response)
  {
    r.status == RespSuccess
  }

  /** `success(data)` */
  function SuccessData(data: Option<JsonObject>): (r: Response)
    ensures IsSuccess(r) && r.data == data && r.errorCode.None? && r.errorMessage.None?
  {
    Response(RespSuccess, data, None, None)
  }

  /** `success(message)`: the data is an object whose only key is `message`. */
  function SuccessMessage(message: string): (r: Response)
    ensures IsSuccess(r) && r.data.Some? && r.data.value.Keys == {"message"}
    ensures r.data.value["message"] == JString(message)
  {
    SuccessData(Some(map["message" := JString(message)]))
  }

  /** `error(code, message)` */
  function Error(code: string, message: string): (r: Response)
    ensures !IsSuccess(r) && r.status == RespError && r.data.None?
    ensures r.errorCode == Some(code) && r.errorMessage == Some(message)
  {
    Response(RespError, None, Some(code), Some(message))
  }

  /** The object `toProtocolString` builds for a non-success reply;
      `put(key, null)` leaves a key out. */
  function ErrorPayload(r: Response): (payload: JsonObject)
    ensures "code" in payload <==> r.errorCode.Some?
    ensures "message" in payload <==> r.errorMessage.Some?
    ensures payload.Keys <= {"code", "message"}
  {
    var withCode: JsonObject := if r.errorCode.Some? then map["code" := JString(r.errorCode.value)] else map[];
    if r.errorMessage.Some? then withCode["message" := JString(r.errorMessage.value)] else withCode
  }

  function StatusText(r: Response): (s: string)
    ensures s == RespSuccess || s == RespError
  {
    if IsSuccess(r) then RespSuccess else RespError
  }

  /** `toProtocolString()`, given the printer of `JSONObject.toString()`. */
  function Wire(r: Response, printJson: JsonPrinter): string
  {
    StatusText(r) + [Delimiter] +
    (if IsSuccess(r) then (if r.data.Some? then printJson(r.data.value) else "{}")
     else printJson(ErrorPayload(r)))
  }

  // ---------------------------------------------------------------- properties

  /** The wire text starts with `SUCCESS|` exactly for a success record. */
  lemma WireSuccessPrefix(r: Response, printJson: JsonPrinter)
    ensures StartsWith(Wire(r, printJson), "SUCCESS|") <==> IsSuccess(r)
  {
    var w := Wire(r, printJson);
    if IsSuccess(r) {
      assert w[..8] == "SUCCESS|";
    } else {
      assert w[0] == 'E';
      assert "SUCCESS|"[0] == 'S';
    }
  }

  /** Any other status, whatever its text, is rendered as an error with the
      `code`/`message` object. */
  lemma WireOfFailure(r: Response, printJson: JsonPrinter)
    requires !IsSuccess(r)
    ensures StartsWith(Wire(r, printJson), "ERROR|")
    ensures Wire(r, printJson) == "ERROR|" + printJson(ErrorPayload(r))
  {
    assert Wire(r, printJson)[..6] == "ERROR|";
  }

  /** A success without data still carries an empty object. */
  lemma WireOfEmptySuccess(printJson: JsonPrinter)
    ensures Wire(SuccessData(None), printJson) == "SUCCESS|{}"
  {
  }

  /** The reply to `error(code, message)` carries exactly those two keys. */
  lemma ErrorPayloadOfError(code: string, message: string)
    ensures ErrorPayload(Error(code, message)) == map["code" := JString(code), "message" := JString(message)]
    ensures ErrorPayload(Error(code, message)).Keys == {"code", "message"}
  {
  }

  /** The first `|` of the wire text ends the status, so a reader that splits on
      it recovers whether the call succeeded. */
  lemma WireStatusField(r: Response, printJson: JsonPrinter)
    ensures Delimiter in Wire(r, printJson)
    ensures IndexOf(Wire(r, printJson), Delimiter) == |StatusText(r)|
    ensures Wire(r, printJson)[..|StatusText(r)|] == StatusText(r)
  {
    var w := Wire(r, printJson);
    var st := StatusText(r);
    assert w[|st|] == Delimiter;
    assert w[..|st|] == st;
    IndexOfFirst(w, Delimiter, |st|);
  }
}
